/** Claims, their modes, and when two of them conflict. */
module ResourceClaims {
  import opened GlobLanguage
  import opened Resources
  import opened Wrappers
  import ClaimExactness
  import ClaimPaths
  import Sorting
  import Strings

  datatype Mode = Read | Write | ExclusiveWrite {
    function Name(): string {
      match this
      case Read => "read"
      case Write => "write"
      case ExclusiveWrite => "exclusive-write"
    }

    function Strength(): nat {
      match this
      case Read => 0
      case Write => 1
      case ExclusiveWrite => 2
    }
  }

  const ISOLATED_WORKTREE := "isolated-worktree"
  const MAX_GROUP_ID_LENGTH := 128

  datatype Sharing = Sharing(kind: string, groupId: string)

  datatype Claim = Claim(
    claimId: string,
    sessionId: string,
    repositoryId: string,
    worktreePath: string,
    resource: string,
    mode: Mode,
    sharing: Option<Sharing>,
    createdAt: string,
    updatedAt: string)

  datatype Owner = Owner(sessionId: string, repositoryId: string, worktreePath: string)

  datatype IdentityStatus = Verified | Missing | Ambiguous

  datatype Identity = Identity(
    status: IdentityStatus,
    repositoryId: Option<string>,
    sessionId: Option<string>,
    worktreeId: Option<string>,
    worktreePath: Option<string>)

  datatype Facts = Facts(
    left: Claim,
    right: Claim,
    leftIdentity: Identity,
    rightIdentity: Identity,
    claimSetGeneration: int,
    observedClaimSetGeneration: int)

  /** Evidence about a pair of claims, when the caller has any. */
  type FactSource = (Claim, Claim) -> Option<Facts>

  /** The source speaks about the pair it was asked about. Nothing in the conflict test checks
      this: it reads the claims inside the evidence. */
  ghost predicate Honest(facts: FactSource) {
    forall l, r :: facts(l, r).Some? ==> facts(l, r).value.left == l && facts(l, r).value.right == r
  }

  predicate Compatible(a: Mode, b: Mode) {
    (a == Read && b != ExclusiveWrite) || (b == Read && a != ExclusiveWrite)
  }

  predicate GrantsAccess(granted: Mode, required: Mode) {
    granted.Strength() >= required.Strength()
  }

  function ValidateSharing(sharing: Option<Sharing>, mode: Mode): Result<Option<Sharing>, ErrorCode> {
    match sharing
    case None => Ok(None)
    case Some(s) =>
      if mode != Write || s.kind != ISOLATED_WORKTREE || |s.groupId| == 0 || |s.groupId| > MAX_GROUP_ID_LENGTH then
        Err(InvalidClaim)
      else Ok(sharing)
  }

  /** The text whose digest names a claim. */
  function ClaimIdentity(sessionId: string, resource: string, mode: Mode, sharing: Option<Sharing>): string {
    sessionId + "\0" + mode.Name() + "\0" + resource +
    match sharing
    case None => ""
    case Some(s) => "\0" + s.kind + "\0" + s.groupId
  }

  /** The digest is taken to be collision free: it stands here as the text itself. */
  function CanonicalClaimId(sessionId: string, resource: string, mode: Mode, sharing: Option<Sharing>): string {
    "claim-" + ClaimIdentity(sessionId, resource, mode, sharing)
  }

  function CreateClaim(resource: string, mode: Mode, sharing: Option<Sharing>, owner: Owner, timestamp: string): Claim {
    Claim(CanonicalClaimId(owner.sessionId, resource, mode, sharing), owner.sessionId, owner.repositoryId,
          owner.worktreePath, resource, mode, sharing, timestamp, timestamp)
  }

  function ClaimSortKey(c: Claim): string {
    c.resource + "\0" + c.mode.Name() + "\0" + c.sessionId + "\0" + c.claimId
  }

  function SortClaims(claims: seq<Claim>): seq<Claim> {
    Sorting.SortBy(claims, ClaimSortKey)
  }

  ghost predicate ClaimsMeet(l: Claim, r: Claim) {
    ResourcesOverlap(l.resource, r.resource)
  }

  /** What the claim search decides about any two texts, canonical or not. */
  ghost predicate Selects(l: string, r: string) {
    ClaimPaths.Accepts(Segments(l), Segments(r))
  }

  /** No segment of the text is `**`. */
  predicate StaysShallow(resource: string) {
    ClaimPaths.StarFree(Segments(resource))
  }

  predicate NoEmptySegments(resource: string) {
    IsPattern(Segments(resource))
  }

  /** On any two texts the search answers the same either way round, and never misses an overlap. */
  lemma SelectsEitherWay(l: string, r: string)
    ensures Selects(l, r) <==> Selects(r, l)
    ensures ResourcesOverlap(l, r) ==> Selects(l, r)
  {
    ClaimExactness.AcceptsIsSymmetric(Segments(l), Segments(r));
    if ResourcesOverlap(l, r) { ClaimPaths.OverlapIsAccepted(Segments(l), Segments(r)); }
  }

  /** It answers exactly if neither text has an empty segment, or one has neither an empty segment
      nor a `**`. */
  lemma SelectsIsOverlap(l: string, r: string)
    requires (NoEmptySegments(l) && (NoEmptySegments(r) || StaysShallow(l))) || (NoEmptySegments(r) && StaysShallow(r))
    ensures Selects(l, r) <==> ResourcesOverlap(l, r)
  {
    ClaimExactness.ExactAgrees(Segments(l), Segments(r));
  }

  lemma CanonicalHasNoEmptySegments(r: string)
    requires IsCanonical(r)
    ensures NoEmptySegments(r) && (WildcardFree(r) ==> StaysShallow(r))
  {
    CanonicalizationIsIdentity(r);
    if WildcardFree(r) {
      LiteralParts(r);
      assert '*' in "**";
    }
  }

  lemma CanonicalSelectsIsOverlap(l: string, r: string)
    requires IsCanonical(l) && IsCanonical(r)
    ensures Selects(l, r) <==> ResourcesOverlap(l, r)
  {
    CanonicalHasNoEmptySegments(l);
    CanonicalHasNoEmptySegments(r);
    SelectsIsOverlap(l, r);
  }

  ghost predicate ExactForAnyText(resource: string) {
    forall text: string :: Selects(resource, text) <==> ResourcesOverlap(resource, text)
  }

  ghost predicate ExactForAnyResource(text: string) {
    forall resource: string :: IsCanonical(resource) ==> (Selects(resource, text) <==> ResourcesOverlap(resource, text))
  }

  lemma AbsorbedText(resource: string) returns (text: string)
    requires NoEmptySegments(resource) && !StaysShallow(resource)
    ensures Selects(resource, text) && !ResourcesOverlap(resource, text)
  {
    var p := Segments(resource);
    var k :| 0 <= k < |p| && p[k] == "**";
    var q := p[k := ""];
    Strings.SplitJoin(q, '/');
    text := Strings.Join(q, '/');
    ClaimExactness.EmptySegmentIsAbsorbed(p, k);
    SelectsEitherWay(text, resource);
    OverlapIsSymmetric(text, resource);
  }

  /** A canonical resource is compared exactly with every text if and only if it has no `**`. */
  lemma ExactForAnyTextIff(resource: string)
    requires IsCanonical(resource)
    ensures ExactForAnyText(resource) <==> StaysShallow(resource)
  {
    CanonicalHasNoEmptySegments(resource);
    if StaysShallow(resource) {
      forall text: string ensures Selects(resource, text) <==> ResourcesOverlap(resource, text) {
        SelectsIsOverlap(resource, text);
      }
    } else {
      var text := AbsorbedText(resource);
    }
  }

  lemma StarsAreCanonical()
    ensures IsCanonical("**") && Segments("**") == ["**"]
  {
    Strings.SplitWhole("**", '/');
  }

  /** A text is compared exactly with every canonical resource if and only if it has no empty segment. */
  lemma ExactForAnyResourceIff(text: string)
    ensures ExactForAnyResource(text) <==> NoEmptySegments(text)
  {
    if NoEmptySegments(text) {
      forall resource: string | IsCanonical(resource)
        ensures Selects(resource, text) <==> ResourcesOverlap(resource, text)
      {
        CanonicalHasNoEmptySegments(resource);
        SelectsIsOverlap(resource, text);
      }
    } else {
      StarsAreCanonical();
      ClaimExactness.StarsDisagree(Segments(text));
      assert Selects("**", text) != ResourcesOverlap("**", text);
    }
  }

  method GlobPatternsOverlap(left: string, right: string) returns (overlap: bool)
    ensures overlap == Selects(left, right)
  {
    var found, _ := ClaimPaths.Search(Segments(left), Segments(right));
    return found;
  }

  /** The shortcut on equal resources gives what the search would give. */
  method ClaimsOverlap(left: Claim, right: Claim) returns (overlap: bool)
    requires IsCanonical(left.resource) && IsCanonical(right.resource)
    ensures overlap == ClaimsMeet(left, right)
  {
    if left.resource == right.resource {
      OverlapIsReflexive(left.resource);
      return true;
    }
    CanonicalSelectsIsOverlap(left.resource, right.resource);
    overlap := GlobPatternsOverlap(left.resource, right.resource);
  }

  method ResourceMatchesClaim(claim: Claim, resource: string) returns (matches: bool)
    requires IsCanonical(claim.resource)
    ensures matches == Selects(claim.resource, resource)
  {
    matches := GlobPatternsOverlap(claim.resource, resource);
  }

  predicate Absent(text: Option<string>) {
    text == None || text == Some("")
  }

  /** Whether evidence lets two writes coexist, test by test in the program's order. */
  predicate PermitsCoordinatedWrite(f: Facts) {
    var l, r, li, ri := f.left, f.right, f.leftIdentity, f.rightIdentity;
    if f.claimSetGeneration != f.observedClaimSetGeneration then false
    else if l.mode != Write || r.mode != Write then false
    else if l.sharing == None || l.sharing.value.kind != ISOLATED_WORKTREE then false
    else if r.sharing == None || r.sharing.value.kind != ISOLATED_WORKTREE then false
    else if l.sharing.value.groupId == "" || l.sharing.value.groupId != r.sharing.value.groupId then false
    else if li.status != Verified || ri.status != Verified then false
    else if li.repositoryId != ri.repositoryId || li.repositoryId != Some(l.repositoryId)
            || ri.repositoryId != Some(r.repositoryId) then false
    else if l.sessionId == r.sessionId || li.sessionId != Some(l.sessionId)
      || ri.sessionId != Some(r.sessionId) then false
    else if li.worktreePath != Some(l.worktreePath) || ri.worktreePath != Some(r.worktreePath) then false
    else if Absent(li.worktreeId) || Absent(ri.worktreeId) || li.worktreeId == ri.worktreeId then false
    else if Absent(li.worktreePath) || Absent(ri.worktreePath) || li.worktreePath == ri.worktreePath then false
    else true
  }

  predicate Permitted(evidence: Option<Facts>) {
    evidence.Some? && PermitsCoordinatedWrite(evidence.value)
  }

  ghost predicate Conflicts(left: Claim, right: Claim, evidence: Option<Facts>) {
    ClaimsMeet(left, right) && !Permitted(evidence) && !Compatible(left.mode, right.mode)
  }

  method ClaimsConflict(left: Claim, right: Claim, evidence: Option<Facts>) returns (conflict: bool)
    requires IsCanonical(left.resource) && IsCanonical(right.resource)
    ensures conflict == Conflicts(left, right, evidence)
  {
    var overlap := ClaimsOverlap(left, right);
    if !overlap { return false; }
    if evidence.Some? && PermitsCoordinatedWrite(evidence.value) { return false; }
    return !Compatible(left.mode, right.mode);
  }

  /** Two writes of different sessions in one non-empty sharing group of one repository,
      in different worktrees. */
  predicate InOneGroup(l: Claim, r: Claim) {
    && l.mode == Write && r.mode == Write
    && l.sharing.Some? && l.sharing == r.sharing
    && l.sharing.value.kind == ISOLATED_WORKTREE && l.sharing.value.groupId != ""
    && l.repositoryId == r.repositoryId && l.sessionId != r.sessionId && l.worktreePath != r.worktreePath
  }

  /** The identity that was found is the claim's own, with a worktree. */
  predicate VerifiedAs(i: Identity, c: Claim) {
    && i.status == Verified && i.repositoryId == Some(c.repositoryId) && i.sessionId == Some(c.sessionId)
    && i.worktreePath == Some(c.worktreePath) && c.worktreePath != ""
    && i.worktreeId.Some? && i.worktreeId.value != ""
  }

  /** Evidence lets two writes coexist if and only if nothing changed since it was taken, both are in one group, and
      both were found where they say, in worktrees that are not the same. */
  lemma PermitsIff(f: Facts)
    ensures PermitsCoordinatedWrite(f) <==>
      && f.claimSetGeneration == f.observedClaimSetGeneration && InOneGroup(f.left, f.right)
      && VerifiedAs(f.leftIdentity, f.left) && VerifiedAs(f.rightIdentity, f.right)
      && f.leftIdentity.worktreeId != f.rightIdentity.worktreeId
  {
  }

  /** Two reads stand together, and a read beside a write; nothing else does. */
  lemma CompatibleIff(a: Mode, b: Mode)
    ensures Compatible(a, b) <==> {a, b} == {Read} || {a, b} == {Read, Write}
  {
    assert a in {a, b} && b in {a, b};
  }

  /** What two claims of different sessions must satisfy. */
  ghost predicate SafePair(l: Claim, r: Claim) {
    ClaimsMeet(l, r) ==> Compatible(l.mode, r.mode) || InOneGroup(l, r)
  }

  lemma SafePairIsSymmetric(l: Claim, r: Claim)
    ensures SafePair(l, r) <==> SafePair(r, l)
  {
    OverlapIsSymmetric(l.resource, r.resource);
  }

  /** With an honest source, a pair that passes the conflict test is safe. */
  lemma NoConflictIsSafe(l: Claim, r: Claim, facts: FactSource)
    requires Honest(facts) && !Conflicts(l, r, facts(l, r))
    ensures SafePair(l, r)
  {
  }

  lemma OtherPairIsPermitted(a: Owner, b: Owner)
    requires a == Owner("s1", "repo", "/w1") && b == Owner("s2", "repo", "/w2")
    ensures PermitsCoordinatedWrite(EvidenceAboutOthers(a, b))
  {
  }

  /** Evidence about two grouped writes of another resource. */
  function EvidenceAboutOthers(a: Owner, b: Owner): Facts {
    var write := Some(Sharing(ISOLATED_WORKTREE, "g"));
    Facts(
      CreateClaim("g", Write, write, a, "t"), CreateClaim("g", Write, write, b, "t"),
      Identity(Verified, Some("repo"), Some("s1"), Some("i1"), Some("/w1")),
      Identity(Verified, Some("repo"), Some("s2"), Some("i2"), Some("/w2")), 0, 0)
  }

  lemma NameIsCanonical()
    ensures IsCanonical("f")
  {
    Strings.SplitWhole("f", '/');
  }

  /** Honesty is needed: evidence about some other pair lets two exclusive claims on one
      resource stand side by side. */
  lemma HonestyIsNeeded() returns (l: Claim, r: Claim, f: Facts)
    ensures l.sessionId != r.sessionId && l.mode == r.mode == ExclusiveWrite
    ensures Conflicts(l, r, None) && !Conflicts(l, r, Some(f))
  {
    var a, b := Owner("s1", "repo", "/w1"), Owner("s2", "repo", "/w2");
    l := CreateClaim("f", ExclusiveWrite, None, a, "t");
    r := CreateClaim("f", ExclusiveWrite, None, b, "t");
    f := EvidenceAboutOthers(a, b);
    NameIsCanonical();
    OverlapIsReflexive("f");
    OtherPairIsPermitted(a, b);
  }
}
