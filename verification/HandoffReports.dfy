/** What the reports of finished handoffs are worth: that the source keeps its claim, and that the
    destination has it. */
module HandoffReports {
  import opened HandoffCommit
  import opened HandoffProtocol
  import opened HandoffRuns
  import opened ResourceClaims
  import opened ResourceHandoff
  import opened Wrappers

  predicate HeldBy(g: Registry, sessionId: string, resource: string) {
    ExactClaims(g.claims, sessionId, resource) != []
  }

  predicate SourceHolds(g: Registry, n: Normalized) {
    HeldBy(g, n.fromSessionId, n.resource)
  }

  predicate DestinationHolds(g: Registry, n: Normalized) {
    HeldBy(g, n.toSessionId, n.resource)
  }

  predicate Reported(c: Client) {
    c.phase.Finished? && c.phase.result.Ok?
  }

  function ReportOf(c: Client): HandoffResult
    requires Reported(c)
  {
    c.phase.result.value
  }

  // ----- A report is true at its generation

  /** The claims that the report names stand whenever the registry is at the report's generation. */
  predicate TrueOf(r: HandoffResult, n: Normalized, g: Registry) {
    && r.claimSetGeneration <= g.claimSetGeneration
    && (r.claimSetGeneration == g.claimSetGeneration ==>
          (r.sourceClaim.Some? ==> SourceHolds(g, n)) && (r.destinationClaim.Some? ==> DestinationHolds(g, n)))
  }

  predicate TellsTruth(c: Client, g: Registry) {
    Reported(c) ==> TrueOf(ReportOf(c), c.normalized, g)
  }

  predicate AllTellTruth(w: World) {
    forall i :: 0 <= i < |w.clients| ==> TellsTruth(w.clients[i], w.registry)
  }

  lemma TruthLasts(c: Client, g: Registry, g': Registry)
    requires TellsTruth(c, g) && PastOf(g, g')
    ensures TellsTruth(c, g')
  {
  }

  lemma FoundIffHeld(g: Registry, sessionId: string, resource: string)
    requires FindExact(g.claims, sessionId, resource).Ok?
    ensures FindExact(g.claims, sessionId, resource).value.Some? <==> HeldBy(g, sessionId, resource)
  {
  }

  predicate NamesOnlyHeld(v: Validation, g: Registry, n: Normalized) {
    && v.claimSetGeneration == g.claimSetGeneration
    && (v.sourceClaim.Some? ==> SourceHolds(g, n)) && (v.destinationClaim.Some? ==> DestinationHolds(g, n))
  }

  lemma OwnershipIsTrue(g: Registry, n: Normalized, source: HandoffSession, destination: HandoffSession)
    requires ValidateClaims(g, n, source, destination).Ok?
    ensures NamesOnlyHeld(ValidateClaims(g, n, source, destination).value, g, n)
    ensures ValidateClaims(g, n, source, destination).value.status != Idempotent
  {
    FoundIffHeld(g, n.fromSessionId, n.resource);
    if FindExact(g.claims, n.toSessionId, n.resource).Ok? { FoundIffHeld(g, n.toSessionId, n.resource); }
  }

  predicate NamesNothing(v: Validation, g: Registry) {
    v.claimSetGeneration == g.claimSetGeneration && v.sourceClaim == v.destinationClaim == None && v.status == Blocked
  }

  predicate NamesAllHeld(v: Validation, g: Registry, n: Normalized) {
    && v.claimSetGeneration == g.claimSetGeneration
    && (v.sourceClaim.Some? <==> SourceHolds(g, n)) && (v.destinationClaim.Some? <==> DestinationHolds(g, n))
  }

  lemma RecordedValidation(g: Registry, n: Normalized)
    requires Validate(g, n).Ok? && FindRecord(g.completed, n.operationId).Some?
    ensures NamesNothing(Validate(g, n).value, g) || NamesAllHeld(Validate(g, n).value, g, n)
  {
    if SameOperation(FindRecord(g.completed, n.operationId).value, n) {
      FoundIffHeld(g, n.fromSessionId, n.resource);
      FoundIffHeld(g, n.toSessionId, n.resource);
    }
  }

  lemma NewValidation(g: Registry, n: Normalized)
    requires Validate(g, n).Ok? && FindRecord(g.completed, n.operationId) == None
    ensures
      || NamesNothing(Validate(g, n).value, g)
      || (FindSession(g.sessions, n.fromSessionId).Some? && FindSession(g.sessions, n.toSessionId).Some?
          && Validate(g, n) == ValidateClaims(g, n, FindSession(g.sessions, n.fromSessionId).value,
                                              FindSession(g.sessions, n.toSessionId).value))
  {
  }

  /** A validation names nothing that does not stand, and all that stands if the operation is on record. */
  lemma ValidationIsTrue(g: Registry, n: Normalized)
    requires Validate(g, n).Ok?
    ensures NamesOnlyHeld(Validate(g, n).value, g, n)
    ensures Validate(g, n).value.status == Idempotent ==> NamesAllHeld(Validate(g, n).value, g, n)
  {
    if FindRecord(g.completed, n.operationId).Some? {
      RecordedValidation(g, n);
    } else {
      NewValidation(g, n);
      if !NamesNothing(Validate(g, n).value, g) {
        OwnershipIsTrue(g, n, FindSession(g.sessions, n.fromSessionId).value,
          FindSession(g.sessions, n.toSessionId).value);
      }
    }
  }

  /** What a client saw allowed is true of the registry as long as it is at that generation. */
  lemma SeenIsTrue(n: Normalized, seen: Registry, g: Registry, r: HandoffResult)
    requires Allows(seen, n) && PastOf(seen, g)
    requires r.claimSetGeneration == seen.claimSetGeneration && r.destinationClaim == None
    ensures TrueOf(r, n, g)
  {
    var source := AllowedMeans(seen, n);
  }

  lemma ReadTellsTruth(n: Normalized, g: Registry)
    ensures TellsTruth(Client(n, AfterRead(n, g)), g)
  {
    if Validate(g, n).Ok? { ValidationIsTrue(g, n); }
  }

  lemma FenceTellsTruth(n: Normalized, seen: Registry, offered: Option<Fence>, g: Registry)
    requires Allows(seen, n) && PastOf(seen, g)
    ensures TellsTruth(Client(n, AfterFence(n, seen, offered)), g)
  {
    var stop := FenceResult(n, seen.claimSetGeneration, offered, SourceOf(n, seen));
    if stop.Some? { SeenIsTrue(n, seen, g, stop.value); }
  }

  lemma DrainTellsTruth(n: Normalized, seen: Registry, f: Fence, observed: Option<Quiescence>, g: Registry)
    requires Allows(seen, n) && PastOf(seen, g)
    ensures TellsTruth(Client(n, AfterDrain(n, seen, f, observed)), g)
  {
    var stop := DrainResult(n, seen.claimSetGeneration, f, observed, SourceOf(n, seen));
    if stop.Some? { SeenIsTrue(n, seen, g, stop.value); }
  }

  lemma RereadTellsTruth(n: Normalized, seen: Registry, f: Fence, q: Quiescence, g: Registry)
    ensures TellsTruth(Client(n, AfterReread(n, seen, f, q, g)), g)
  {
    if Validate(g, n).Ok? { ValidationIsTrue(g, n); }
  }

  lemma OwnStepTellsTruth(c: Client, a: Action, g: Registry)
    requires Knows(c, g) && TellsTruth(c, g)
    ensures TellsTruth(c.(phase := ClientStep(c, a, g)), g)
  {
    var n := c.normalized;
    match (a, c.phase)
    case (Read(_), Starting) => ReadTellsTruth(n, g);
    case (CloseSource(_, offered), Fencing(seen)) => FenceTellsTruth(n, seen, offered, g);
    case (ObserveDrain(_, observed), Draining(seen, f)) => DrainTellsTruth(n, seen, f, observed, g);
    case (ReadAgain(_), Rereading(seen, f, q)) => RereadTellsTruth(n, seen, f, q, g);
    case _ =>
  }

  /** The commit answers that the operation was done already, with what stands there. */
  lemma AlreadyDoneIsTrue(g: Registry, input: CommitInput, timestamp: string, facts: FactSource)
    requires CommitHandoff(g, input, timestamp, facts).Ok?
    requires CommitHandoff(g, input, timestamp, facts).value.0.status != Transferred
    ensures var (answer, g') := CommitHandoff(g, input, timestamp, facts).value; var n := input.normalized;
      && g' == g && answer.status == AlreadyDone && answer.claimSetGeneration == g.claimSetGeneration
      && (answer.sourceClaim.Some? <==> SourceHolds(g, n))
        && (answer.destinationClaim.Some? <==> DestinationHolds(g, n))
  {
    ValidationIsTrue(g, input.normalized);
  }

  lemma TransferReportIsTrue(g: Registry, input: CommitInput, timestamp: string, facts: FactSource)
    requires WellFormed(input.normalized) && CommitHandoff(g, input, timestamp, facts).Ok?
    requires CommitHandoff(g, input, timestamp, facts).value.0.status == Transferred
    ensures var (answer, g') := CommitHandoff(g, input, timestamp, facts).value; var n := input.normalized;
      && answer.claimSetGeneration == g'.claimSetGeneration && answer.sourceClaim == None
      && DestinationHolds(g', n) && !SourceHolds(g', n)
  {
    CommitTransfers(g, input, timestamp, facts);
    IdentityHeld(g, input, timestamp, facts);
  }

  /** The registry after the commit, whatever the client hears. */
  ghost function RegistryAfter(g: Registry, c: Client, timestamp: string, facts: FactSource, delivery: Delivery)
    : Registry
    requires c.phase.Committing?
  {
    if TakesEffect(g, c, timestamp, facts, delivery) then CommitHandoff(g, InputOf(c), timestamp, facts).value.1 else g
  }

  lemma CommitMovesOn(w: World, i: nat, timestamp: string, facts: FactSource, delivery: Delivery)
    requires i < |w.clients| && w.clients[i].phase.Committing? && Knows(w.clients[i], w.registry)
    ensures PastOf(w.registry, RegistryAfter(w.registry, w.clients[i], timestamp, facts, delivery))
    ensures CommitStep(w, i, timestamp, facts, delivery).registry
      == RegistryAfter(w.registry, w.clients[i], timestamp, facts, delivery)
  {
    if TakesEffect(w.registry, w.clients[i], timestamp, facts, delivery) {
      TransferIsNew(w, i, timestamp, facts);
    }
  }

  /** A commit that ends without an accepted answer reports the snapshot it was made on. */
  lemma FailureTellsTruth(c: Client, g: Registry, r: HandoffResult)
    requires c.phase.Committing? && Knows(c, g)
    requires r.claimSetGeneration == c.phase.snapshot.claimSetGeneration && r.destinationClaim == None
    ensures TrueOf(r, c.normalized, g)
  {
    SeenIsTrue(c.normalized, c.phase.seen, g, r);
  }

  lemma CommitTellsTruth(c: Client, g: Registry, g': Registry, timestamp: string, facts: FactSource, delivery: Delivery)
    requires c.phase.Committing? && Knows(c, g) && PastOf(g, g')
    requires g' == RegistryAfter(g, c, timestamp, facts, delivery)
    ensures TrueOf(CommitResultOf(g, c, timestamp, facts, delivery), c.normalized, g')
  {
    var heard := Heard(g, c, timestamp, facts, delivery);
    var r := CommitResultOf(g, c, timestamp, facts, delivery);
    if heard.Err? || !AcceptableCommit(heard.value, c.normalized, c.phase.seen.claimSetGeneration, c.phase.snapshot) {
      KnowledgeLasts(c, g, g');
      FailureTellsTruth(c, g', r);
    } else if heard.value.status == Transferred {
      TransferReportIsTrue(g, InputOf(c), timestamp, facts);
    } else {
      AlreadyDoneIsTrue(g, InputOf(c), timestamp, facts);
    }
  }

  lemma PhaseKeepsTruth(w: World, i: nat, phase: Phase, g: Registry)
    requires AllTellTruth(w) && i < |w.clients| && PastOf(w.registry, g)
    requires TellsTruth(w.clients[i].(phase := phase), g)
    ensures forall k :: 0 <= k < |w.clients| ==> TellsTruth(SetPhase(w, i, phase).clients[k], g)
  {
    forall k | 0 <= k < |w.clients| ensures TellsTruth(SetPhase(w, i, phase).clients[k], g) {
      if k != i { TruthLasts(w.clients[k], w.registry, g); }
    }
  }

  lemma CommitStepTellsTruth(w: World, i: nat, timestamp: string, facts: FactSource, delivery: Delivery)
    requires AllTellTruth(w) && i < |w.clients| && w.clients[i].phase.Committing? && Knows(w.clients[i], w.registry)
    ensures AllTellTruth(CommitStep(w, i, timestamp, facts, delivery))
  {
    var c := w.clients[i];
    var g := RegistryAfter(w.registry, c, timestamp, facts, delivery);
    CommitMovesOn(w, i, timestamp, facts, delivery);
    CommitTellsTruth(c, w.registry, g, timestamp, facts, delivery);
    PhaseKeepsTruth(w, i, Finished(Ok(CommitResultOf(w.registry, c, timestamp, facts, delivery))), g);
  }

  lemma OutsideStepTellsTruth(w: World, a: Action)
    requires AllTellTruth(w) && (a.Arrive? || a.Others?)
    ensures AllTellTruth(Next(w, a))
  {
    var w' := Next(w, a);
    assert PastOf(w.registry, w'.registry);
    forall k | 0 <= k < |w'.clients| ensures TellsTruth(w'.clients[k], w'.registry) {
      if k < |w.clients| { TruthLasts(w.clients[k], w.registry, w'.registry); }
    }
  }

  lemma StepTellsTruth(base: seq<OperationRecord>, w: World, a: Action)
    requires Inv(base, w) && AllTellTruth(w)
    ensures AllTellTruth(Next(w, a))
  {
    if a.Arrive? || a.Others? {
      OutsideStepTellsTruth(w, a);
    } else if a.CommitNow? {
      if a.client < |w.clients| && w.clients[a.client].phase.Committing? {
        CommitStepTellsTruth(w, a.client, a.timestamp, a.facts, a.delivery);
      }
    } else if a.client < |w.clients| {
      OwnStepTellsTruth(w.clients[a.client], a, w.registry);
      PhaseKeepsTruth(w, a.client, ClientStep(w.clients[a.client], a, w.registry), w.registry);
    }
  }

  /** In every run, at every later moment too: a claim that a report names stands if the registry is
      still at the report's generation. */
  lemma {:induction false} EveryReportIsTrue(w: World, actions: seq<Action>)
    requires w.clients == [] && w.transfers == [] && ValidHistory(w.registry.completed)
    ensures AllTellTruth(After(w, actions))
  {
    if actions != [] {
      var before := actions[..|actions| - 1];
      EveryReportIsTrue(w, before);
      RunsKeepInv(w, before);
      StepTellsTruth(w.registry.completed, After(w, before), actions[|actions| - 1]);
    }
  }

  // ----- The moment of the report

  /** The step is a commit of client `i` that transfers. */
  ghost predicate Transfers(w: World, a: Action, i: nat) {
    && i < |w.clients| && a.CommitNow? && a.client == i && w.clients[i].phase.Committing?
    && TakesEffect(w.registry, w.clients[i], a.timestamp, a.facts, a.delivery)
  }

  lemma CommitKeepsSource(w: World, i: nat, timestamp: string, facts: FactSource, delivery: Delivery)
    requires i < |w.clients| && w.clients[i].phase.Committing? && Knows(w.clients[i], w.registry)
    ensures SourceHolds(CommitStep(w, i, timestamp, facts, delivery).registry, w.clients[i].normalized) <==>
      SourceHolds(w.registry, w.clients[i].normalized)
        && !TakesEffect(w.registry, w.clients[i], timestamp, facts, delivery)
  {
    if TakesEffect(w.registry, w.clients[i], timestamp, facts, delivery) {
      TransferReportIsTrue(w.registry, InputOf(w.clients[i]), timestamp, facts);
    }
  }

  /** After any step of client `i`, whatever it says and whatever became of the answer, its source
      holds the claim if and only if it held it before and the step was not a commit that transfers. */
  lemma SourceAfterStepIff(base: seq<OperationRecord>, w: World, a: Action, i: nat)
    requires Inv(base, w) && i < |w.clients| && !a.Arrive? && !a.Others? && a.client == i
    ensures SourceHolds(Next(w, a).registry, w.clients[i].normalized) <==>
      SourceHolds(w.registry, w.clients[i].normalized) && !Transfers(w, a, i)
  {
    assert Knows(w.clients[i], w.registry);
    if a.CommitNow? {
      if w.clients[i].phase.Committing? { CommitKeepsSource(w, i, a.timestamp, a.facts, a.delivery); }
    } else {
      assert Next(w, a).registry == w.registry;
    }
  }

  predicate SaysUnchanged(c: Client) {
    Reported(c) && ReportOf(c).status == Unchanged
  }

  predicate NamesWhatStands(r: HandoffResult, n: Normalized, g: Registry) {
    && r.claimSetGeneration == g.claimSetGeneration
    && (r.sourceClaim.Some? <==> SourceHolds(g, n)) && (r.destinationClaim.Some? <==> DestinationHolds(g, n))
  }

  lemma CommitSaysUnchanged(c: Client, g: Registry, timestamp: string, facts: FactSource, delivery: Delivery)
    requires c.phase.Committing? && Knows(c, g)
    requires CommitResultOf(g, c, timestamp, facts, delivery).status == Unchanged
    ensures !TakesEffect(g, c, timestamp, facts, delivery)
    ensures NamesWhatStands(CommitResultOf(g, c, timestamp, facts, delivery), c.normalized, g)
  {
    HeardIsAccepted(c, g, timestamp, facts, delivery);
    AlreadyDoneIsTrue(g, InputOf(c), timestamp, facts);
  }

  lemma ReadSaysUnchanged(n: Normalized, g: Registry)
    requires SaysUnchanged(Client(n, AfterRead(n, g)))
    ensures NamesWhatStands(ReportOf(Client(n, AfterRead(n, g))), n, g)
  {
    ValidationIsTrue(g, n);
  }

  lemma RereadSaysUnchanged(n: Normalized, seen: Registry, f: Fence, q: Quiescence, g: Registry)
    requires SaysUnchanged(Client(n, AfterReread(n, seen, f, q, g)))
    ensures NamesWhatStands(ReportOf(Client(n, AfterReread(n, seen, f, q, g))), n, g)
  {
    ValidationIsTrue(g, n);
  }

  lemma OwnStepSaysUnchanged(c: Client, a: Action, g: Registry)
    requires !c.phase.Finished? && !a.CommitNow? && SaysUnchanged(c.(phase := ClientStep(c, a, g)))
    ensures NamesWhatStands(ReportOf(c.(phase := ClientStep(c, a, g))), c.normalized, g)
  {
    match (a, c.phase)
    case (Read(_), Starting) => ReadSaysUnchanged(c.normalized, g);
    case (ReadAgain(_), Rereading(seen, f, q)) => RereadSaysUnchanged(c.normalized, seen, f, q, g);
    case _ =>
  }

  /** When a client is told that the operation was done already, each claim stands if and only if the
      answer names it. */
  lemma UnchangedNamesWhatStands(base: seq<OperationRecord>, w: World, a: Action, i: nat)
    requires Inv(base, w) && i < |w.clients| && !w.clients[i].phase.Finished?
    requires !a.Arrive? && !a.Others? && a.client == i && SaysUnchanged(Next(w, a).clients[i])
    ensures Next(w, a).registry == w.registry
    ensures NamesWhatStands(ReportOf(Next(w, a).clients[i]), w.clients[i].normalized, Next(w, a).registry)
  {
    var c := w.clients[i];
    assert Knows(c, w.registry);
    if a.CommitNow? {
      CommitSaysUnchanged(c, w.registry, a.timestamp, a.facts, a.delivery);
    } else {
      OwnStepSaysUnchanged(c, a, w.registry);
    }
  }
}
