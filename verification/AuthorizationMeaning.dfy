/** What an authorization says, operation by operation, in terms of the claims alone. */
module AuthorizationMeaning {
  import opened Authorization
  import opened CoordinationTransactions
  import opened MutualExclusion
  import opened ResourceClaims
  import opened Resources
  import opened Wrappers

  // ----- What each operation demands

  predicate IsWriteOperation(operation: string) {
    operation == "source-write" || operation == "stage"
  }

  predicate IsExclusiveOperation(operation: string) {
    operation == "commit" || operation == "branch-mutation" || operation == "push" || operation == "cleanup"
  }

  predicate IsOperation(operation: string) {
    IsWriteOperation(operation) || IsExclusiveOperation(operation)
  }

  /** The claim is strong enough: exclusive for the operations that change shared history, at least a
      write for the others. */
  predicate Suffices(operation: string, mode: Mode) {
    if IsExclusiveOperation(operation) then mode == ExclusiveWrite else mode != Read
  }

  /** Another session's claim of this mode stands in the way of a session that has no claim itself. */
  predicate StandsInTheWay(operation: string, mode: Mode) {
    IsExclusiveOperation(operation) || mode != Read
  }

  /** The access is what the operation demands. */
  ghost predicate Demands(operation: string, access: Mode) {
    && (forall mode :: GrantsAccess(mode, access) <==> Suffices(operation, mode))
    && (forall mode :: Compatible(mode, access) <==> !StandsInTheWay(operation, mode))
  }

  lemma DemandsAreMet(operation: string)
    ensures RequiredAccess(operation).Some? <==> IsOperation(operation)
    ensures IsOperation(operation) ==>
      Demands(operation, RequiredAccess(operation).value) && RequiredAccess(operation) == Some(Demanded(operation))
  {
  }

  // ----- Who may ask, and for what

  /** The `k`-th record is the first with the identifier. */
  predicate ListedAt(sessions: seq<Session>, sessionId: string, k: int) {
    0 <= k < |sessions| && sessions[k].sessionId == sessionId
    && forall j :: 0 <= j < k ==> sessions[j].sessionId != sessionId
  }

  predicate Unlisted(sessions: seq<Session>, sessionId: string) {
    forall k :: 0 <= k < |sessions| ==> sessions[k].sessionId != sessionId
  }

  ghost predicate ListedActive(s: Snapshot, sessionId: string) {
    exists k :: ListedAt(s.sessions, sessionId, k)
      && s.sessions[k].state == "active" && s.sessions[k].repositoryId == s.repositoryId
  }

  ghost predicate ListedInactive(s: Snapshot, sessionId: string) {
    exists k :: ListedAt(s.sessions, sessionId, k) && s.sessions[k].state != "active"
  }

  predicate Believable(s: Snapshot) {
    s.repositoryId != "" && 0 <= s.claimSetGeneration <= MAX_SAFE_INTEGER
  }

  predicate UsablePaths(resources: seq<string>) {
    1 <= |resources| <= 4096 && forall r :: r in resources ==> IsCanonical(r)
  }

  lemma {:induction false} FoundIsListed(sessions: seq<Session>, id: string)
    ensures match FindSession(sessions, id)
      case None => Unlisted(sessions, id)
      case Some(owner) => exists k :: ListedAt(sessions, id, k) && sessions[k] == owner
  {
    if sessions != [] {
      if sessions[0].sessionId == id {
        assert ListedAt(sessions, id, 0);
      } else {
        FoundIsListed(sessions[1..], id);
        if FindSession(sessions[1..], id).Some? {
          var k :| ListedAt(sessions[1..], id, k) && sessions[1..][k] == FindSession(sessions[1..], id).value;
          forall j | 0 <= j < k + 1 ensures sessions[j].sessionId != id {
            assert j > 0 ==> sessions[j] == sessions[1..][j - 1];
          }
          assert ListedAt(sessions, id, k + 1);
        } else {
          assert forall j :: 1 <= j < |sessions| ==> sessions[j] == sessions[1..][j - 1];
        }
      }
    }
  }

  lemma ListedOnce(sessions: seq<Session>, id: string, i: int, k: int)
    requires ListedAt(sessions, id, i) && ListedAt(sessions, id, k)
    ensures i == k
  {
  }

  lemma OwnerIsListed(s: Snapshot, id: string)
    ensures var found := FindSession(s.sessions, id);
      && (found == None <==> Unlisted(s.sessions, id))
      && (found.Some? && found.value.state != "active" <==> ListedInactive(s, id))
      && (ListedActive(s, id) <==>
            found.Some? && found.value.state == "active" && found.value.repositoryId == s.repositoryId)
  {
    FoundIsListed(s.sessions, id);
    if FindSession(s.sessions, id).Some? {
      var k :| ListedAt(s.sessions, id, k) && s.sessions[k] == FindSession(s.sessions, id).value;
      forall j | ListedAt(s.sessions, id, j) ensures j == k {
        ListedOnce(s.sessions, id, j, k);
      }
    }
  }

  lemma {:induction false} PathsAreUsable(resources: seq<string>)
    ensures CanonicalizePaths(resources).Some? <==> forall r :: r in resources ==> IsCanonical(r)
  {
    if resources != [] {
      PathsAreUsable(resources[1..]);
      if CanonicalizePaths(resources).Some? {
        CanonicalPathsAreAsGiven(resources);
      } else {
        assert resources[0] in resources;
        assert forall r :: r in resources[1..] ==> r in resources;
      }
    }
  }

  // ----- One path

  /** One session asking for one operation. */
  datatype Ask = Ask(sessionId: string, operation: string, facts: FactSource)

  /** The session's own claim on the path, strong enough for the operation. */
  ghost predicate Covers(c: Claim, ask: Ask, path: string) {
    c.sessionId == ask.sessionId && ResourcesOverlap(c.resource, path) && Suffices(ask.operation, c.mode)
  }

  ghost predicate CoversFirst(claims: seq<Claim>, i: int, ask: Ask, path: string) {
    0 <= i < |claims| && Covers(claims[i], ask, path) && forall j :: 0 <= j < i ==> !Covers(claims[j], ask, path)
  }

  ghost predicate Undisputed(claims: seq<Claim>, c: Claim, facts: FactSource) {
    forall e :: e in claims && e.sessionId != c.sessionId ==> !Conflicts(c, e, facts(c, e))
  }

  /** The session's first sufficient claim on the path is disputed by no other session. */
  ghost predicate PathGranted(claims: seq<Claim>, ask: Ask, path: string) {
    exists i :: CoversFirst(claims, i, ask, path) && Undisputed(claims, claims[i], ask.facts)
  }

  ghost predicate AnyCovers(claims: seq<Claim>, ask: Ask, path: string) {
    exists c :: c in claims && Covers(c, ask, path)
  }

  ghost predicate HoldsAnything(claims: seq<Claim>, ask: Ask, path: string) {
    exists c :: c in claims && c.sessionId == ask.sessionId && ResourcesOverlap(c.resource, path)
  }

  /** Another session holds something on the path that the operation cannot go beside. */
  ghost predicate Hindered(claims: seq<Claim>, ask: Ask, path: string) {
    exists e :: e in claims && e.sessionId != ask.sessionId && ResourcesOverlap(e.resource, path)
      && StandsInTheWay(ask.operation, e.mode)
  }

  /** Why a path is denied. */
  ghost predicate PathDenied(claims: seq<Claim>, ask: Ask, path: string, code: DenialCode) {
    && !PathGranted(claims, ask, path)
    && code == if AnyCovers(claims, ask, path) || Hindered(claims, ask, path) then ConflictingClaim
               else if HoldsAnything(claims, ask, path) then InsufficientMode
               else MissingClaim
  }

  ghost function GrantingOf(claims: seq<Claim>, sessionId: string, path: string, access: Mode): (granting: seq<Claim>)
  {
    Granting(Matching(Own(claims, sessionId), path), access)
  }

  lemma GrantingCovers(claims: seq<Claim>, ask: Ask, path: string, access: Mode)
    requires Demands(ask.operation, access)
    ensures forall c :: c in GrantingOf(claims, ask.sessionId, path, access) <==> c in claims && Covers(c, ask, path)
    ensures GrantingOf(claims, ask.sessionId, path, access) == [] <==> !AnyCovers(claims, ask, path)
  {
    var granting := GrantingOf(claims, ask.sessionId, path, access);
    if granting != [] { assert granting[0] in granting; }
  }

  lemma OwnPrepends(c: Claim, claims: seq<Claim>, sessionId: string)
    ensures Own([c] + claims, sessionId) == (if c.sessionId == sessionId then [c] else []) + Own(claims, sessionId)
  {
    assert ([c] + claims)[1..] == claims;
  }

  lemma MoreGranting(c: Claim, matching: seq<Claim>, ask: Ask, path: string, access: Mode)
    requires Demands(ask.operation, access) && c.sessionId == ask.sessionId
    ensures Granting((if ResourcesOverlap(c.resource, path) then [c] else []) + matching, access)
      == (if Covers(c, ask, path) then [c] else []) + Granting(matching, access)
  {
    assert [] + matching == matching;
    if ResourcesOverlap(c.resource, path) { GrantingPrepends(c, matching, access); }
  }

  lemma MatchingPrepends(c: Claim, own: seq<Claim>, path: string)
    ensures Matching([c] + own, path) == (if ResourcesOverlap(c.resource, path) then [c] else []) + Matching(own, path)
  {
    assert ([c] + own)[1..] == own;
  }

  lemma GrantingPrepends(c: Claim, matching: seq<Claim>, access: Mode)
    ensures Granting([c] + matching, access)
      == (if GrantsAccess(c.mode, access) then [c] else []) + Granting(matching, access)
  {
    assert ([c] + matching)[1..] == matching;
  }

  lemma GrantingOfMore(c: Claim, claims: seq<Claim>, ask: Ask, path: string, access: Mode)
    requires Demands(ask.operation, access)
    ensures GrantingOf([c] + claims, ask.sessionId, path, access)
      == (if Covers(c, ask, path) then [c] else []) + GrantingOf(claims, ask.sessionId, path, access)
  {
    var own := Own(claims, ask.sessionId);
    OwnPrepends(c, claims, ask.sessionId);
    if c.sessionId == ask.sessionId {
      MatchingPrepends(c, own, path);
      MoreGranting(c, Matching(own, path), ask, path, access);
    } else {
      assert [] + own == own;
    }
  }

  /** The claims of the session that cover the path, in order. */
  ghost function Covering(claims: seq<Claim>, ask: Ask, path: string): seq<Claim> {
    if claims == [] then []
    else (if Covers(claims[0], ask, path) then [claims[0]] else []) + Covering(claims[1..], ask, path)
  }

  lemma {:induction false} GrantingIsCovering(claims: seq<Claim>, ask: Ask, path: string, access: Mode)
    requires Demands(ask.operation, access)
    ensures GrantingOf(claims, ask.sessionId, path, access) == Covering(claims, ask, path)
  {
    if claims != [] {
      assert claims == [claims[0]] + claims[1..];
      GrantingOfMore(claims[0], claims[1..], ask, path, access);
      GrantingIsCovering(claims[1..], ask, path, access);
    }
  }

  lemma CoversLater(claims: seq<Claim>, k: int, ask: Ask, path: string)
    requires claims != [] && !Covers(claims[0], ask, path) && CoversFirst(claims[1..], k, ask, path)
    ensures CoversFirst(claims, k + 1, ask, path) && claims[k + 1] == claims[1..][k]
  {
    forall j | 0 <= j < k + 1 ensures !Covers(claims[j], ask, path) {
      assert j > 0 ==> claims[j] == claims[1..][j - 1];
    }
  }

  lemma {:induction false} FirstCovering(claims: seq<Claim>, ask: Ask, path: string) returns (i: int)
    requires Covering(claims, ask, path) != []
    ensures CoversFirst(claims, i, ask, path) && claims[i] == Covering(claims, ask, path)[0]
  {
    i := 0;
    if !Covers(claims[0], ask, path) {
      var k := FirstCovering(claims[1..], ask, path);
      CoversLater(claims, k, ask, path);
      i := k + 1;
    }
  }

  /** The claim the decision rests on is the first that covers the path. */
  lemma FirstGranting(claims: seq<Claim>, ask: Ask, path: string, access: Mode) returns (i: int)
    requires Demands(ask.operation, access) && GrantingOf(claims, ask.sessionId, path, access) != []
    ensures CoversFirst(claims, i, ask, path)
    ensures claims[i] == GrantingOf(claims, ask.sessionId, path, access)[0]
  {
    GrantingIsCovering(claims, ask, path, access);
    i := FirstCovering(claims, ask, path);
  }

  lemma GrantedIfUndisputed(claims: seq<Claim>, ask: Ask, path: string, i: int)
    requires CoversFirst(claims, i, ask, path)
    ensures PathGranted(claims, ask, path) <==> Undisputed(claims, claims[i], ask.facts)
    ensures AnyCovers(claims, ask, path)
  {
    assert claims[i] in claims;
  }

  lemma HinderedIffBlocked(claims: seq<Claim>, ask: Ask, path: string, access: Mode)
    requires Demands(ask.operation, access)
    ensures Hindered(claims, ask, path) <==>
      exists e :: e in External(claims, ask.sessionId) && BlocksAccess(e, path, access)
  {
    if e :| e in claims && e.sessionId != ask.sessionId && ResourcesOverlap(e.resource, path)
            && StandsInTheWay(ask.operation, e.mode) {
      assert e in External(claims, ask.sessionId) && BlocksAccess(e, path, access);
    }
    if e :| e in External(claims, ask.sessionId) && BlocksAccess(e, path, access) {
      assert StandsInTheWay(ask.operation, e.mode);
    }
  }

  lemma HoldsIffMatching(claims: seq<Claim>, ask: Ask, path: string)
    ensures HoldsAnything(claims, ask, path) <==> Matching(Own(claims, ask.sessionId), path) != []
  {
    var matching := Matching(Own(claims, ask.sessionId), path);
    if matching != [] { assert matching[0] in matching; }
  }

  lemma UndisputedIffUnopposed(claims: seq<Claim>, c: Claim, facts: FactSource)
    ensures Undisputed(claims, c, facts) <==>
      !exists e :: e in External(claims, c.sessionId) && Conflicts(c, e, facts(c, e))
  {
  }

  ghost function PathDecision(claims: seq<Claim>, ask: Ask, path: string, access: Mode)
    : Result<AuthorizedResource, DenialCode>
  {
    AuthorizePath(Own(claims, ask.sessionId), External(claims, ask.sessionId), path, access, ask.facts)
  }

  lemma PathUncovered(claims: seq<Claim>, ask: Ask, path: string, access: Mode)
    requires Demands(ask.operation, access) && GrantingOf(claims, ask.sessionId, path, access) == []
    ensures PathDecision(claims, ask, path, access).Err?
    ensures PathDenied(claims, ask, path, PathDecision(claims, ask, path, access).error)
  {
    assert !AnyCovers(claims, ask, path) by { GrantingCovers(claims, ask, path, access); }
    assert !PathGranted(claims, ask, path) by {
      if i :| CoversFirst(claims, i, ask, path) { GrantedIfUndisputed(claims, ask, path, i); }
    }
    HinderedIffBlocked(claims, ask, path, access);
    HoldsIffMatching(claims, ask, path);
  }

  lemma CoveredDecision(claims: seq<Claim>, ask: Ask, path: string, access: Mode, g: Claim)
    requires GrantingOf(claims, ask.sessionId, path, access) != []
    requires g == GrantingOf(claims, ask.sessionId, path, access)[0]
    ensures PathDecision(claims, ask, path, access) ==
      if exists e :: e in External(claims, ask.sessionId) && Conflicts(g, e, ask.facts(g, e)) then Err(ConflictingClaim)
      else Ok(AuthorizedResource(path, ClaimIds(GrantingOf(claims, ask.sessionId, path, access))))
  {
  }

  lemma PathCovered(claims: seq<Claim>, ask: Ask, path: string, access: Mode)
    requires Demands(ask.operation, access) && GrantingOf(claims, ask.sessionId, path, access) != []
    ensures PathDecision(claims, ask, path, access).Ok? <==> PathGranted(claims, ask, path)
    ensures PathDecision(claims, ask, path, access).Err? ==>
      PathDenied(claims, ask, path, PathDecision(claims, ask, path, access).error)
  {
    var i := FirstGranting(claims, ask, path, access);
    CoveredDecision(claims, ask, path, access, claims[i]);
    assert PathDecision(claims, ask, path, access).Ok? <==> Undisputed(claims, claims[i], ask.facts) by {
      UndisputedIffUnopposed(claims, claims[i], ask.facts);
    }
    GrantedIfUndisputed(claims, ask, path, i);
  }

  /** The decision on one path. */
  lemma PathMeans(claims: seq<Claim>, ask: Ask, path: string, access: Mode)
    requires Demands(ask.operation, access)
    ensures PathDecision(claims, ask, path, access).Ok? <==> PathGranted(claims, ask, path)
    ensures PathDecision(claims, ask, path, access).Err? ==>
      PathDenied(claims, ask, path, PathDecision(claims, ask, path, access).error)
  {
    if GrantingOf(claims, ask.sessionId, path, access) == [] {
      PathUncovered(claims, ask, path, access);
    } else {
      PathCovered(claims, ask, path, access);
    }
  }

  // ----- All paths

  ghost predicate AllGranted(claims: seq<Claim>, ask: Ask, paths: seq<string>) {
    forall k :: 0 <= k < |paths| ==> PathGranted(claims, ask, paths[k])
  }

  /** The `k`-th path is the first that is not granted, and that is why. */
  ghost predicate FirstDenied(claims: seq<Claim>, ask: Ask, paths: seq<string>, k: int, code: DenialCode) {
    0 <= k < |paths| && AllGranted(claims, ask, paths[..k]) && PathDenied(claims, ask, paths[k], code)
  }

  ghost function PathsDecision(claims: seq<Claim>, ask: Ask, paths: seq<string>, access: Mode)
    : Result<seq<AuthorizedResource>, DenialCode>
  {
    AuthorizePaths(Own(claims, ask.sessionId), External(claims, ask.sessionId), paths, access, ask.facts)
  }

  lemma PathsDecisionStep(claims: seq<Claim>, ask: Ask, before: seq<string>, last: string, access: Mode)
    ensures PathsDecision(claims, ask, before + [last], access) ==
      match PathsDecision(claims, ask, before, access)
      case Err(code) => Err(code)
      case Ok(rs) =>
        match PathDecision(claims, ask, last, access)
        case Err(code) => Err(code)
        case Ok(r) => Ok(rs + [r])
  {
    assert (before + [last])[..|before|] == before;
  }

  lemma FirstDeniedStays(claims: seq<Claim>, ask: Ask, before: seq<string>, last: string, k: int, code: DenialCode)
    requires FirstDenied(claims, ask, before, k, code)
    ensures FirstDenied(claims, ask, before + [last], k, code) && !AllGranted(claims, ask, before + [last])
  {
    assert (before + [last])[..k] == before[..k] && (before + [last])[k] == before[k];
  }

  ghost predicate SaysOf(claims: seq<Claim>, ask: Ask, paths: seq<string>,
      d: Result<seq<AuthorizedResource>, DenialCode>) {
    && (d.Ok? <==> AllGranted(claims, ask, paths))
    && (d.Err? ==> exists k :: FirstDenied(claims, ask, paths, k, d.error))
  }

  lemma SaysOfOneMore(claims: seq<Claim>, ask: Ask, before: seq<string>, last: string, access: Mode)
    requires Demands(ask.operation, access) && SaysOf(claims, ask, before, PathsDecision(claims, ask, before, access))
    ensures SaysOf(claims, ask, before + [last], PathsDecision(claims, ask, before + [last], access))
  {
    PathsDecisionStep(claims, ask, before, last, access);
    var paths, d := before + [last], PathsDecision(claims, ask, before, access);
    if d.Err? {
      var k :| FirstDenied(claims, ask, before, k, d.error);
      FirstDeniedStays(claims, ask, before, last, k, d.error);
    } else {
      PathMeans(claims, ask, last, access);
      assert paths[..|before|] == before && paths[|before|] == last;
      var one := PathDecision(claims, ask, last, access);
      if one.Err? {
        assert FirstDenied(claims, ask, paths, |before|, one.error);
      } else {
        assert AllGranted(claims, ask, paths);
      }
    }
  }

  lemma NoPathsMean(claims: seq<Claim>, ask: Ask, access: Mode)
    ensures SaysOf(claims, ask, [], PathsDecision(claims, ask, [], access))
  {
  }

  lemma {:induction false} PathsMean(claims: seq<Claim>, ask: Ask, paths: seq<string>, access: Mode)
    requires Demands(ask.operation, access)
    ensures SaysOf(claims, ask, paths, PathsDecision(claims, ask, paths, access))
  {
    if paths == [] {
      NoPathsMean(claims, ask, access);
    } else {
      var before, last := paths[..|paths| - 1], paths[|paths| - 1];
      assert paths == before + [last];
      PathsMean(claims, ask, before, access);
      SaysOfOneMore(claims, ask, before, last, access);
    }
  }

  // ----- The whole decision

  ghost function DecisionOn(s: Snapshot, ask: Ask, resources: seq<string>): Result<Decision, ErrorCode> {
    Authorize(s, ask.operation, ask.sessionId, resources, ask.facts)
  }

  ghost predicate Permits(s: Snapshot, ask: Ask, resources: seq<string>) {
    DecisionOn(s, ask, resources).Ok? && DecisionOn(s, ask, resources).value.Allowed?
  }

  function Demanded(operation: string): Mode {
    if IsExclusiveOperation(operation) then ExclusiveWrite else Write
  }

  /** Which denial answers which offence, the first one first; the demanded access is named from the
      moment the session is known. */
  ghost predicate Denies(s: Snapshot, ask: Ask, resources: seq<string>, d: Decision) {
    d.Denied? &&
    if !IsOperation(ask.operation) then d == Denied(UnknownOperation, None)
    else if Unlisted(s.sessions, ask.sessionId) then d == Denied(NoSession, None)
    else if ListedInactive(s, ask.sessionId) then d == Denied(InactiveSession, None)
    else if !ListedActive(s, ask.sessionId) then d == Denied(NoSession, None)
    else
      && d.required == Some(Demanded(ask.operation))
      && if UsablePaths(resources) then exists k :: FirstDenied(s.claims, ask, resources, k, d.code)
         else d.code == UnusableResource
  }

  /** The decision once the asking is in order. */
  lemma OrderlyAsk(s: Snapshot, ask: Ask, resources: seq<string>, access: Mode)
    requires Believable(s) && RequiredAccess(ask.operation) == Some(access)
    requires FindSession(s.sessions, ask.sessionId).Some?
    requires FindSession(s.sessions, ask.sessionId).value.state == "active"
    requires FindSession(s.sessions, ask.sessionId).value.repositoryId == s.repositoryId
    requires UsablePaths(resources) && CanonicalizePaths(resources) == Some(resources)
    ensures DecisionOn(s, ask, resources) ==
      match PathsDecision(s.claims, ask, resources, access)
      case Err(code) => Ok(Denied(code, Some(access)))
      case Ok(authorized) => Ok(Allowed(access, authorized))
  {
  }

  lemma DisorderlyAsk(s: Snapshot, ask: Ask, resources: seq<string>)
    requires !(Believable(s) && IsOperation(ask.operation) && ListedActive(s, ask.sessionId) && UsablePaths(resources))
    ensures !Permits(s, ask, resources)
    ensures Believable(s) ==>
      DecisionOn(s, ask, resources).Ok? && Denies(s, ask, resources, DecisionOn(s, ask, resources).value)
  {
    DemandsAreMet(ask.operation);
    OwnerIsListed(s, ask.sessionId);
    PathsAreUsable(resources);
  }

  lemma OrderlyAskMeans(s: Snapshot, ask: Ask, resources: seq<string>)
    requires Believable(s) && IsOperation(ask.operation) && ListedActive(s, ask.sessionId) && UsablePaths(resources)
    ensures Permits(s, ask, resources) <==> AllGranted(s.claims, ask, resources)
    ensures !Permits(s, ask, resources) ==>
      DecisionOn(s, ask, resources).Ok? && Denies(s, ask, resources, DecisionOn(s, ask, resources).value)
  {
    DemandsAreMet(ask.operation);
    OwnerIsListed(s, ask.sessionId);
    PathsAreUsable(resources);
    CanonicalPathsAreAsGiven(resources);
    var access := RequiredAccess(ask.operation).value;
    OrderlyAsk(s, ask, resources, access);
    PathsMean(s.claims, ask, resources, access);
  }

  /** An operation is permitted if and only if it exists, a believable snapshot lists its session first
      as an active one of the repository, there are 1 to 4096 canonical paths, and for each path the
      session's first sufficient claim is disputed by no other session. */
  lemma PermittedIff(s: Snapshot, ask: Ask, resources: seq<string>)
    ensures Permits(s, ask, resources) <==>
      && Believable(s) && IsOperation(ask.operation) && ListedActive(s, ask.sessionId) && UsablePaths(resources)
      && AllGranted(s.claims, ask, resources)
  {
    if Believable(s) && IsOperation(ask.operation) && ListedActive(s, ask.sessionId) && UsablePaths(resources) {
      OrderlyAskMeans(s, ask, resources);
    } else {
      DisorderlyAsk(s, ask, resources);
    }
  }

  /** What is not permitted is denied, with the code of the first offence. */
  lemma DenialsAreInOrder(s: Snapshot, ask: Ask, resources: seq<string>)
    requires Believable(s) && !Permits(s, ask, resources)
    ensures DecisionOn(s, ask, resources).Ok? && Denies(s, ask, resources, DecisionOn(s, ask, resources).value)
  {
    if IsOperation(ask.operation) && ListedActive(s, ask.sessionId) && UsablePaths(resources) {
      OrderlyAskMeans(s, ask, resources);
    } else {
      DisorderlyAsk(s, ask, resources);
    }
  }

  // ----- Exclusion, over the operations

  /** Whoever may do anything on a path holds a claim on it that suffices and nobody disputes. */
  lemma PermittedRestsOn(s: Snapshot, ask: Ask, resources: seq<string>, path: string) returns (g: Claim)
    requires path in resources && Permits(s, ask, resources)
    ensures g in s.claims && Covers(g, ask, path) && Undisputed(s.claims, g, ask.facts) && IsCanonical(path)
    ensures IsWriteOperation(ask.operation) ==> g.mode != Read
    ensures IsExclusiveOperation(ask.operation) ==> g.mode == ExclusiveWrite
  {
    PermittedIff(s, ask, resources);
    var k :| 0 <= k < |resources| && resources[k] == path;
    assert PathGranted(s.claims, ask, resources[k]);
    var i :| CoversFirst(s.claims, i, ask, path) && Undisputed(s.claims, s.claims[i], ask.facts);
    g := s.claims[i];
  }

  lemma ExclusiveIsAlone(g: Claim, h: Claim, path: string, facts: FactSource)
    requires g.mode == ExclusiveWrite && IsCanonical(path) && WildcardFree(path) && Honest(facts)
    requires ResourcesOverlap(g.resource, path) && ResourcesOverlap(h.resource, path)
    ensures Conflicts(g, h, facts(g, h))
  {
    MeetOnPath(g, h, path);
  }

  /** Whoever may commit, mutate a branch, push or clean up on a path without wildcards holds an
      exclusive claim on it, and no other session may do anything there. */
  lemma ExclusiveOperationsExclude(s: Snapshot, path: string, a: Ask, pathsA: seq<string>, b: Ask, pathsB: seq<string>)
    returns (g: Claim)
    requires a.sessionId != b.sessionId && path in pathsA && path in pathsB && WildcardFree(path) && Honest(a.facts)
    requires IsExclusiveOperation(a.operation) && Permits(s, a, pathsA)
    ensures g in s.claims && g.sessionId == a.sessionId && g.mode == ExclusiveWrite
      && ResourcesOverlap(g.resource, path)
    ensures !Permits(s, b, pathsB)
  {
    g := PermittedRestsOn(s, a, pathsA, path);
    if Permits(s, b, pathsB) {
      var h := PermittedRestsOn(s, b, pathsB, path);
      ExclusiveIsAlone(g, h, path, a.facts);
    }
  }

  // ----- What a decision names

  lemma {:induction false} IdsOfClaims(claims: seq<Claim>)
    ensures |ClaimIds(claims)| == |claims| && forall k :: 0 <= k < |claims| ==> ClaimIds(claims)[k] == claims[k].claimId
  {
    if claims != [] { IdsOfClaims(claims[1..]); }
  }

  /** The path, with the identifiers of exactly those claims of the session that cover it. */
  ghost predicate NamesCovering(r: AuthorizedResource, claims: seq<Claim>, ask: Ask, path: string) {
    && r.resource == path
    && forall id :: id in r.claimIds <==> exists c :: c in claims && Covers(c, ask, path) && c.claimId == id
  }

  lemma IdsAreOfThese(granting: seq<Claim>, id: string)
    ensures id in ClaimIds(granting) <==> exists c :: c in granting && c.claimId == id
  {
    IdsOfClaims(granting);
    if id in ClaimIds(granting) {
      var k :| 0 <= k < |granting| && ClaimIds(granting)[k] == id;
      assert granting[k] in granting;
    }
    if c :| c in granting && c.claimId == id {
      var k :| 0 <= k < |granting| && granting[k] == c;
      assert ClaimIds(granting)[k] == id;
    }
  }

  lemma OnePathNames(claims: seq<Claim>, ask: Ask, path: string, access: Mode)
    requires Demands(ask.operation, access) && PathDecision(claims, ask, path, access).Ok?
    ensures NamesCovering(PathDecision(claims, ask, path, access).value, claims, ask, path)
  {
    var granting := GrantingOf(claims, ask.sessionId, path, access);
    assert PathDecision(claims, ask, path, access).value == AuthorizedResource(path, ClaimIds(granting));
    GrantingCovers(claims, ask, path, access);
    forall id ensures id in ClaimIds(granting) <==> exists c :: c in claims && Covers(c, ask, path) && c.claimId == id {
      IdsAreOfThese(granting, id);
    }
  }

  ghost predicate NamesAll(rs: seq<AuthorizedResource>, claims: seq<Claim>, ask: Ask, paths: seq<string>) {
    |rs| == |paths| && forall k :: 0 <= k < |paths| ==> NamesCovering(rs[k], claims, ask, paths[k])
  }

  lemma {:induction false} AllPathsName(claims: seq<Claim>, ask: Ask, paths: seq<string>, access: Mode)
    requires Demands(ask.operation, access) && PathsDecision(claims, ask, paths, access).Ok?
    ensures NamesAll(PathsDecision(claims, ask, paths, access).value, claims, ask, paths)
  {
    if paths != [] {
      var before, last := paths[..|paths| - 1], paths[|paths| - 1];
      assert paths == before + [last];
      PathsDecisionStep(claims, ask, before, last, access);
      AllPathsName(claims, ask, before, access);
      OnePathNames(claims, ask, last, access);
    }
  }

  lemma PermittedDecision(s: Snapshot, ask: Ask, resources: seq<string>, access: Mode)
    requires Permits(s, ask, resources) && RequiredAccess(ask.operation) == Some(access)
    ensures PathsDecision(s.claims, ask, resources, access).Ok?
    ensures DecisionOn(s, ask, resources) == Ok(Allowed(access, PathsDecision(s.claims, ask, resources, access).value))
  {
    PermittedIff(s, ask, resources);
    OwnerIsListed(s, ask.sessionId);
    PathsAreUsable(resources);
    CanonicalPathsAreAsGiven(resources);
    OrderlyAsk(s, ask, resources, access);
  }

  /** A permitted operation is answered with its access and its paths in order, each with the claims
      that cover it. */
  lemma AllowedNamesTheClaims(s: Snapshot, ask: Ask, resources: seq<string>)
    requires Permits(s, ask, resources)
    ensures NamesAll(DecisionOn(s, ask, resources).value.resources, s.claims, ask, resources)
    ensures DecisionOn(s, ask, resources).value.access == Demanded(ask.operation)
  {
    assert IsOperation(ask.operation) by { PermittedIff(s, ask, resources); }
    DemandsAreMet(ask.operation);
    var access := RequiredAccess(ask.operation).value;
    PermittedDecision(s, ask, resources, access);
    AllPathsName(s.claims, ask, resources, access);
  }
}
