/** Runs in full, of one handoff: its answer is lost and a retry learns what happened; the claim goes
    away before the commit, or was never there; the claim is handed back and asked for again. */
module HandoffWitness {
  import opened HandoffCommit
  import opened HandoffProtocol
  import opened HandoffRuns
  import opened ResourceClaims
  import opened ResourceHandoff
  import opened Resources
  import opened Wrappers
  import Sorting
  import Strings

  const SCOPE := Some(Scope([], ["f"], [], [], []))
  const SOURCE := HandoffSession("a", "r", "/a", "active", SCOPE)
  const DESTINATION := HandoffSession("b", "r", "/b", "active", SCOPE)
  const HELD := CreateClaim("f", ExclusiveWrite, None, Owner("a", "r", "/a"), "t")
  const MOVED := CreateClaim("f", ExclusiveWrite, None, Owner("b", "r", "/b"), "t")
  const BEFORE := Registry("r", 0, [SOURCE, DESTINATION], [HELD], [])
  const ASKED := Options("a", "b", "f", ExclusiveWrite, 0, Some("op"))
  const REQUEST := ResourceHandoff.Normalized.Normalized("a", "b", "f", ExclusiveWrite, 0, "op")
  const FENCE := Fence(HANDOFF_SCHEMA_VERSION, "a", "op", 1, false, "fenced")
  const QUIET := Quiescence("a", "op", 1, "quiescent", [], [])
  const AFTER := Registry("r", 1, [SOURCE, DESTINATION], [MOVED], [RECORD])

  const RECORD := OperationRecord("op", "a", "b", "f", ExclusiveWrite, 1)

  /** The claim is given up by other means before the commit. */
  const LEFT := BEFORE.(claims := [], claimSetGeneration := 1)
  /** The claim was never there. */
  const NOTHING := BEFORE.(claims := [])
  /** The claim is back at its source after the handoff. */
  const BACK := AFTER.(claims := [HELD], claimSetGeneration := 2)

  const ASKED_AGAIN := ASKED.(ifGeneration := 2)
  const REQUEST_AGAIN := REQUEST.(claimSetGeneration := 2)

  function NoDigest(s: string): string {
    s
  }

  function NoEvidence(l: Claim, r: Claim): Option<Facts> {
    None
  }

  lemma RequestIsNormalized()
    ensures NormalizeOptions(ASKED, NoDigest) == Ok(REQUEST) && WellFormed(REQUEST)
    ensures NormalizeOptions(ASKED_AGAIN, NoDigest) == Ok(REQUEST_AGAIN) && WellFormed(REQUEST_AGAIN)
  {
    NameIsCanonical();
  }

  lemma PathsAreAbsolute()
    ensures IsAbsolutePath("/a") && IsAbsolutePath("/b")
  {
    Strings.SplitWhole("a", '/');
    Strings.SplitWhole("b", '/');
    assert "/a"[1..] == "a" && "/b"[1..] == "b";
  }

  lemma ScopeIsValid()
    ensures ValidScope(SCOPE)
  {
    assert IsScopeSelector("f");
  }

  lemma SessionsAreValid()
    ensures ValidSessions([SOURCE, DESTINATION])
  {
    PathsAreAbsolute();
    ScopeIsValid();
    assert ValidSession(SOURCE) && ValidSession(DESTINATION);
  }

  lemma FoundSessions(g: Registry)
    requires g.sessions == [SOURCE, DESTINATION]
    ensures FindSession(g.sessions, "a") == Some(SOURCE) && FindSession(g.sessions, "b") == Some(DESTINATION)
  {
    assert g.sessions[1..] == [DESTINATION];
  }

  lemma RegistryIsValid(g: Registry)
    requires g in {BEFORE, AFTER, NOTHING, BACK}
    ensures ValidRegistry(g)
  {
    SessionsAreValid();
    FoundSessions(g);
    NameIsCanonical();
    PathsAreAbsolute();
    assert g.claims != [] ==> OwnedAndCanonical(g.claims[0], g);
  }

  lemma ExactBefore()
    ensures FindExact(BEFORE.claims, "a", "f") == Ok(Some(HELD)) && FindExact(BEFORE.claims, "b", "f") == Ok(None)
  {
    assert BEFORE.claims[1..] == [] && ExactClaims([], "a", "f") == [] && ExactClaims([], "b", "f") == [];
  }

  lemma ExactAfter()
    ensures FindExact(AFTER.claims, "a", "f") == Ok(None) && FindExact(AFTER.claims, "b", "f") == Ok(Some(MOVED))
    ensures ExactClaims(AFTER.claims, "a", "f") == []
  {
    assert AFTER.claims[1..] == [] && ExactClaims([], "a", "f") == [] && ExactClaims([], "b", "f") == [];
  }

  lemma ScopeAdmitsTheFile()
    ensures ScopeAdmits(DESTINATION, "f", ExclusiveWrite) && !ScopeDenies(DESTINATION, "f")
  {
    NameIsCanonical();
    OverlapIsReflexive("f");
    assert "f" in SCOPE.value.write;
  }

  lemma ClaimsAreAllowed()
    ensures ValidateClaims(BEFORE, REQUEST, SOURCE, DESTINATION)
      == Ok(Validation(Allowed, HandoffAllowed, 0, Some(HELD), None))
  {
    ExactBefore();
    ScopeAdmitsTheFile();
    assert !DestinationOverlaps(BEFORE, "b", HELD);
  }

  lemma HandoffIsAllowed()
    ensures Validate(BEFORE, REQUEST) == Ok(Validation(Allowed, HandoffAllowed, 0, Some(HELD), None))
  {
    RegistryIsValid(BEFORE);
    FoundSessions(BEFORE);
    ClaimsAreAllowed();
  }

  lemma NextIsTheMovedClaim()
    ensures NextClaims(BEFORE, HELD, MOVED) == [MOVED]
  {
    assert BEFORE.claims[1..] == [] && Without([], HELD.claimId) == [];
    assert Without(BEFORE.claims, HELD.claimId) == [] && [] + [MOVED] == [MOVED];
    assert [MOVED][1..] == [] && Sorting.SortBy([], ClaimSortKey) == [];
    assert Sorting.Insert(MOVED, [], ClaimSortKey) == [MOVED];
  }

  lemma MovedClaimIsAcceptable()
    ensures AcceptableClaims(BEFORE.sessions, [MOVED], NoEvidence)
  {
    FoundSessions(BEFORE);
    assert OwnedOpenly(MOVED, BEFORE.sessions);
  }

  lemma TransferIsWritten()
    ensures WriteTransfer(BEFORE, REQUEST, HELD, "t", NoEvidence) ==
      Ok((CommitResult(Transferred, "op", 1, None, Some(MOVED)), AFTER))
  {
    FoundSessions(BEFORE);
    assert DestinationClaim(BEFORE, REQUEST, "t") == MOVED;
    NextIsTheMovedClaim();
    MovedClaimIsAcceptable();
    assert ClaimsError(BEFORE.sessions, [MOVED], NoEvidence) == None;
    assert BEFORE.completed + [RecordOf(REQUEST, 1)] == AFTER.completed;
  }

  lemma CommitTransfersIt()
    ensures CommitHandoff(BEFORE, CommitInput(REQUEST, BEFORE, FENCE, QUIET), "t", NoEvidence) ==
      Ok((CommitResult(Transferred, "op", 1, None, Some(MOVED)), AFTER))
  {
    assert SameSession(BEFORE, BEFORE, "a") && SameSession(BEFORE, BEFORE, "b") by { FoundSessions(BEFORE); }
    HandoffIsAllowed();
    AllowedCommit(BEFORE, CommitInput(REQUEST, BEFORE, FENCE, QUIET), "t", NoEvidence,
                  Validation(Allowed, HandoffAllowed, 0, Some(HELD), None), HELD);
    TransferIsWritten();
  }

  function Steps(): seq<Action> {
    [Arrive(ASKED, NoDigest)] + [Action.Read(0)] + [CloseSource(0, Some(FENCE))] + [ObserveDrain(0, Some(QUIET))]
      + [ReadAgain(0)]
  }

  function At(phase: Phase): World {
    World(BEFORE, [Client(REQUEST, phase)], [])
  }

  lemma ArriveStep()
    ensures Next(World(BEFORE, [], []), Arrive(ASKED, NoDigest)) == At(Starting)
  {
    RequestIsNormalized();
    assert [] + [Client(REQUEST, Starting)] == [Client(REQUEST, Starting)];
  }

  lemma ReadStep()
    ensures Next(At(Starting), Action.Read(0)) == At(Fencing(BEFORE))
  {
    HandoffIsAllowed();
  }

  lemma FenceStep()
    ensures Next(At(Fencing(BEFORE)), CloseSource(0, Some(FENCE))) == At(Draining(BEFORE, FENCE))
  {
  }

  lemma DrainStep()
    ensures Next(At(Draining(BEFORE, FENCE)), ObserveDrain(0, Some(QUIET))) == At(Rereading(BEFORE, FENCE, QUIET))
  {
  }

  lemma RereadStep()
    ensures Next(At(Rereading(BEFORE, FENCE, QUIET)), ReadAgain(0)) == At(Committing(BEFORE, FENCE, QUIET, BEFORE))
  {
    HandoffIsAllowed();
  }

  function AskFirst(): seq<Action> {
    [Arrive(ASKED, NoDigest)] + [Action.Read(0)]
  }

  lemma ReachesTheFence(w: World)
    requires w == World(BEFORE, [], [])
    ensures After(w, AskFirst()) == At(Fencing(BEFORE))
  {
    var a, b := Arrive(ASKED, NoDigest), Action.Read(0);
    assert [] + [a] == [a];
    assert After(w, [a]) == At(Starting) by { Snoc(w, [], a); ArriveStep(); }
    Snoc(w, [a], b);
    ReadStep();
  }

  function FirstSteps(): seq<Action> {
    AskFirst() + [CloseSource(0, Some(FENCE))]
  }

  lemma ReachesTheDrain(w: World)
    requires w == World(BEFORE, [], [])
    ensures After(w, FirstSteps()) == At(Draining(BEFORE, FENCE))
  {
    ReachesTheFence(w);
    Snoc(w, AskFirst(), CloseSource(0, Some(FENCE)));
    FenceStep();
  }

  lemma ReachesTheCommit(w: World)
    requires w == World(BEFORE, [], [])
    ensures After(w, Steps()) == At(Committing(BEFORE, FENCE, QUIET, BEFORE))
  {
    var first, d, e := FirstSteps(), ObserveDrain(0, Some(QUIET)), ReadAgain(0);
    ReachesTheDrain(w);
    assert After(w, first + [d]) == At(Rereading(BEFORE, FENCE, QUIET)) by {
      Snoc(w, first, d);
      DrainStep();
    }
    Snoc(w, first + [d], e);
    RereadStep();
  }

  function LostCommit(): Action {
    CommitNow(0, "t", NoEvidence, LostAfterWrite)
  }

  /** What a client that says `sourceRetained` ended with. */
  predicate Says(c: Client, n: Normalized, status: Outcome, generation: int, source: Option<Claim>,
      destination: Option<Claim>)
  {
    c.normalized == n && c.phase.Finished? && c.phase.result.Ok? &&
    var r := c.phase.result.value;
    r.status == status && r.claimSetGeneration == generation && r.sourceClaim == source
    && r.destinationClaim == destination && r.sourceRetained
  }

  /** The transfer happened; its client does not know and says that the source keeps its claim. */
  ghost predicate MovedUnknown(w: World) {
    && w.registry == AFTER && |w.transfers| == 1 && |w.clients| == 1
    && Says(w.clients[0], REQUEST, Unresolved, 0, Some(HELD), None)
  }

  lemma HearsNothing()
    ensures var c := Client(REQUEST, Committing(BEFORE, FENCE, QUIET, BEFORE));
      && TakesEffect(BEFORE, c, "t", NoEvidence, LostAfterWrite)
      && Heard(BEFORE, c, "t", NoEvidence, LostAfterWrite) == Err(UncertainDurability)
      && CommitHandoff(BEFORE, InputOf(c), "t", NoEvidence).value.1 == AFTER
  {
    CommitTransfersIt();
  }

  lemma LostCommitStep()
    ensures MovedUnknown(Next(At(Committing(BEFORE, FENCE, QUIET, BEFORE)), LostCommit()))
  {
    HearsNothing();
    var w := At(Committing(BEFORE, FENCE, QUIET, BEFORE));
    var result := CommitResultOf(BEFORE, w.clients[0], "t", NoEvidence, LostAfterWrite);
    HandoffIsAllowed();
    assert result.status == Unresolved && result.sourceClaim == Some(HELD);
    assert Next(w, LostCommit()) == CommitStep(w, 0, "t", NoEvidence, LostAfterWrite);
  }

  lemma LostAnswerRun(w: World)
    requires w == World(BEFORE, [], [])
    ensures MovedUnknown(After(w, Steps() + [LostCommit()])) && ExactClaims(AFTER.claims, "a", "f") == []
  {
    ReachesTheCommit(w);
    LostCommitStep();
    Snoc(w, Steps(), LostCommit());
    ExactAfter();
  }

  function RetryLost(): seq<Action> {
    Steps() + [LostCommit()] + [Arrive(ASKED, NoDigest)] + [Action.Read(1)]
  }

  /** The same request again, after the lost answer: nothing moves, and it is told so. */
  lemma RetryAfterLostAnswer(w: World)
    requires w == World(BEFORE, [], [])
    ensures var end := After(w, RetryLost());
      && end.registry == AFTER && |end.transfers| == 1 && |end.clients| == 2
      && Says(end.clients[1], REQUEST, Unchanged, 1, None, Some(MOVED))
  {
    LostAnswerRun(w);
    var lost := Steps() + [LostCommit()];
    var again := lost + [Arrive(ASKED, NoDigest)];
    RequestIsNormalized();
    Snoc(w, lost, Arrive(ASKED, NoDigest));
    Snoc(w, again, Action.Read(1));
    var now := After(w, again);
    assert now.clients[1] == Client(REQUEST, Starting) && now.registry == AFTER;
    AnsweredFromRecord();
  }

  // ----- The claim goes away before the commit

  lemma StaleCommit()
    ensures var c := Client(REQUEST, Committing(BEFORE, FENCE, QUIET, BEFORE));
      && Heard(LEFT, c, "t", NoEvidence, Arrives) == Err(StaleGeneration)
      && !TakesEffect(LEFT, c, "t", NoEvidence, Arrives)
  {
  }

  lemma StaleCommitStep(w: World)
    requires w == At(Committing(BEFORE, FENCE, QUIET, BEFORE)).(registry := LEFT)
    ensures var end := Next(w, CommitNow(0, "t", NoEvidence, Arrives));
      end.registry == LEFT && |end.clients| == 1 && Says(end.clients[0], REQUEST, Refused, 0, Some(HELD), None)
  {
    StaleCommit();
    HandoffIsAllowed();
    var result := CommitResultOf(LEFT, w.clients[0], "t", NoEvidence, Arrives);
    assert result.status == Refused && result.sourceClaim == Some(HELD);
    assert Next(w, CommitNow(0, "t", NoEvidence, Arrives)) == CommitStep(w, 0, "t", NoEvidence, Arrives);
  }

  function LeaveFirst(): seq<Action> {
    Steps() + [Others(LEFT)] + [CommitNow(0, "t", NoEvidence, Arrives)]
  }

  /** No answer is lost, and yet the client is told that the source keeps a claim that is gone. */
  lemma StaleRun(w: World)
    requires w == World(BEFORE, [], [])
    ensures var end := After(w, LeaveFirst());
      end.registry == LEFT && |end.clients| == 1 && Says(end.clients[0], REQUEST, Refused, 0, Some(HELD), None)
  {
    ReachesTheCommit(w);
    Snoc(w, Steps(), Others(LEFT));
    Snoc(w, Steps() + [Others(LEFT)], CommitNow(0, "t", NoEvidence, Arrives));
    assert FaithfulChange(BEFORE, LEFT);
    StaleCommitStep(After(w, Steps() + [Others(LEFT)]));
  }

  // ----- The claim was never there

  lemma NothingToHandOver()
    ensures Validate(NOTHING, REQUEST) == Ok(Validation(Blocked, NoClaim, 0, None, None))
  {
    RegistryIsValid(NOTHING);
    FoundSessions(NOTHING);
    assert ExactClaims([], "a", "f") == [] && ExactClaims([], "b", "f") == [];
  }

  /** The client is told that the source keeps a claim that it never had. */
  lemma NothingHeldRun(w: World)
    requires w == World(NOTHING, [], [])
    ensures var end := After(w, AskFirst());
      end.registry == NOTHING && |end.clients| == 1 && Says(end.clients[0], REQUEST, Refused, 0, None, None)
  {
    RequestIsNormalized();
    NothingToHandOver();
    assert [] + [Arrive(ASKED, NoDigest)] == [Arrive(ASKED, NoDigest)];
    Snoc(w, [], Arrive(ASKED, NoDigest));
    Snoc(w, [Arrive(ASKED, NoDigest)], Action.Read(0));
    assert After(w, [Arrive(ASKED, NoDigest)]).clients == [Client(REQUEST, Starting)];
  }

  // ----- The claim is handed back and asked for again

  lemma AnsweredFromRecord()
    ensures Validate(BACK, REQUEST_AGAIN) == Ok(Validation(Idempotent, HandoffIdempotent, 2, Some(HELD), None))
    ensures Validate(AFTER, REQUEST) == Ok(Validation(Idempotent, HandoffIdempotent, 1, None, Some(MOVED)))
  {
    RegistryIsValid(BACK);
    RegistryIsValid(AFTER);
    ExactBefore();
    ExactAfter();
    assert BACK.claims == BEFORE.claims;
  }

  function HandBack(): seq<Action> {
    Steps() + [LostCommit()] + [Others(BACK)] + [Arrive(ASKED_AGAIN, NoDigest)] + [Action.Read(1)]
  }

  /** A new request after the claim came back is answered as done, although the source holds the
      claim and the destination does not: the operation identifier does not tell the two requests apart. */
  lemma HandedBackRun(w: World)
    requires w == World(BEFORE, [], [])
    ensures var end := After(w, HandBack());
      end.registry == BACK && |end.clients| == 2 && Says(end.clients[1], REQUEST_AGAIN, Unchanged, 2, Some(HELD), None)
  {
    LostAnswerRun(w);
    var lost := Steps() + [LostCommit()];
    var back := lost + [Others(BACK)];
    var again := back + [Arrive(ASKED_AGAIN, NoDigest)];
    RequestIsNormalized();
    assert FaithfulChange(AFTER, BACK);
    Snoc(w, lost, Others(BACK));
    Snoc(w, back, Arrive(ASKED_AGAIN, NoDigest));
    Snoc(w, again, Action.Read(1));
    assert After(w, again).clients[1] == Client(REQUEST_AGAIN, Starting) && After(w, again).registry == BACK;
    AnsweredFromRecord();
  }
}
