/** Any number of handoffs and retries at once, interleaved with each other and with everything
    else that changes the registry, with answers of the commit that may get lost. */
module HandoffRuns {
  import opened HandoffCommit
  import opened HandoffConditions
  import opened HandoffProtocol
  import opened ResourceClaims
  import opened ResourceHandoff
  import opened Wrappers

  datatype Phase =
    | Starting
    | Fencing(seen: Registry)
    | Draining(seen: Registry, fence: Fence)
    | Rereading(seen: Registry, fence: Fence, quiescence: Quiescence)
    | Committing(seen: Registry, fence: Fence, quiescence: Quiescence, snapshot: Registry)
    | Finished(result: Result<HandoffResult, Code>)

  datatype Client = Client(normalized: Normalized, phase: Phase)

  /** One committed transfer, with what its client had seen first. */
  datatype Transfer = Transfer(input: CommitInput, seen: Registry, before: Registry, after: Registry)

  datatype World = World(registry: Registry, clients: seq<Client>, transfers: seq<Transfer>)

  datatype Action =
    | Arrive(options: Options, digest: Digest)
    | Others(registry: Registry)
    | Read(client: nat)
    | CloseSource(client: nat, offered: Option<Fence>)
    | ObserveDrain(client: nat, observed: Option<Quiescence>)
    | ReadAgain(client: nat)
    | CommitNow(client: nat, timestamp: string, facts: FactSource, delivery: Delivery)

  /** Other registry writers: they raise the generation whenever they change claims, and they do not
      touch the record of completed handoffs. */
  predicate FaithfulChange(g: Registry, g': Registry) {
    && g'.completed == g.completed && g'.claimSetGeneration >= g.claimSetGeneration
    && (g'.claimSetGeneration == g.claimSetGeneration ==> g'.claims == g.claims)
  }

  function SetPhase(w: World, i: nat, phase: Phase): World
    requires i < |w.clients|
  {
    w.(clients := w.clients[i := w.clients[i].(phase := phase)])
  }

  // ----- The client's own steps, each as in the protocol

  ghost function AfterRead(n: Normalized, g: Registry): Phase {
    match ReadResult(n, g) case Some(r) => Finished(r) case None => Fencing(g)
  }

  ghost function AfterFence(n: Normalized, seen: Registry, offered: Option<Fence>): Phase {
    match FenceResult(n, seen.claimSetGeneration, offered, SourceOf(n, seen))
    case Some(r) => Finished(Ok(r))
    case None => Draining(seen, offered.value)
  }

  ghost function AfterDrain(n: Normalized, seen: Registry, f: Fence, observed: Option<Quiescence>): Phase {
    match DrainResult(n, seen.claimSetGeneration, f, observed, SourceOf(n, seen))
    case Some(r) => Finished(Ok(r))
    case None => Rereading(seen, f, observed.value)
  }

  ghost function AfterReread(n: Normalized, seen: Registry, f: Fence, q: Quiescence, g: Registry): Phase {
    match RereadResult(n, seen.claimSetGeneration, g, f.epoch)
    case Some(r) => Finished(r)
    case None => Committing(seen, f, q, g)
  }

  ghost function ClientStep(c: Client, a: Action, g: Registry): Phase {
    match (a, c.phase)
    case (Read(_), Starting) => AfterRead(c.normalized, g)
    case (CloseSource(_, offered), Fencing(seen)) => AfterFence(c.normalized, seen, offered)
    case (ObserveDrain(_, observed), Draining(seen, f)) => AfterDrain(c.normalized, seen, f, observed)
    case (ReadAgain(_), Rereading(seen, f, q)) => AfterReread(c.normalized, seen, f, q, g)
    case _ => c.phase
  }

  function InputOf(c: Client): CommitInput
    requires c.phase.Committing?
  {
    CommitInput(c.normalized, c.phase.snapshot, c.phase.fence, c.phase.quiescence)
  }

  /** Everything the client was answered, the commit included. */
  function AnswersOf(c: Client, commit: Result<CommitResult, CommitFailure>): Answers
    requires c.phase.Committing?
  {
    Answers(c.phase.seen, Some(c.phase.fence), Some(c.phase.quiescence), c.phase.snapshot, commit)
  }

  // ----- The commit

  function FailureOf(code: Code): CommitFailure {
    match code
    case Stale => StaleGeneration
    case Conflict => ClaimConflict
    case Rejected => RejectedOperation
    case _ => AnythingElse
  }

  /** The registry transfers, and the transfer becomes visible. */
  ghost predicate TakesEffect(g: Registry, c: Client, timestamp: string, facts: FactSource, delivery: Delivery)
    requires c.phase.Committing?
  {
    var committed := CommitHandoff(g, InputOf(c), timestamp, facts);
    committed.Ok? && committed.value.0.status == Transferred && delivery != LostBeforeWrite
  }

  /** What the client hears. */
  ghost function Heard(g: Registry, c: Client, timestamp: string, facts: FactSource, delivery: Delivery)
    : Result<CommitResult, CommitFailure>
    requires c.phase.Committing?
  {
    match CommitHandoff(g, InputOf(c), timestamp, facts)
    case Err(code) => Err(if delivery == Arrives then FailureOf(code) else AnythingElse)
    case Ok((answer, _)) =>
      match delivery
      case Arrives => Ok(answer)
      case LostAfterWrite => Err(if answer.status == Transferred then UncertainDurability else AnythingElse)
      case LostBeforeWrite => Err(AnythingElse)
  }

  ghost function CommitResultOf(g: Registry, c: Client, timestamp: string, facts: FactSource, delivery: Delivery)
    : HandoffResult
    requires c.phase.Committing?
  {
    AfterCommit(AnswersOf(c, Heard(g, c, timestamp, facts, delivery)), c.normalized, Some(c.phase.fence.epoch),
                SourceOf(c.normalized, c.phase.snapshot))
  }

  ghost function CommitStep(w: World, i: nat, timestamp: string, facts: FactSource, delivery: Delivery): World
    requires i < |w.clients| && w.clients[i].phase.Committing?
  {
    var c := w.clients[i];
    var done := SetPhase(w, i, Finished(Ok(CommitResultOf(w.registry, c, timestamp, facts, delivery))));
    if TakesEffect(w.registry, c, timestamp, facts, delivery) then
      var g := CommitHandoff(w.registry, InputOf(c), timestamp, facts).value.1;
      done.(registry := g, transfers := w.transfers + [Transfer(InputOf(c), c.phase.seen, w.registry, g)])
    else done
  }

  /** One step of the whole; a step that is not enabled does nothing. */
  ghost function Next(w: World, a: Action): World {
    match a
    case Arrive(o, digest) =>
      var normalized := NormalizeOptions(o, digest);
      if normalized.Err? then w else w.(clients := w.clients + [Client(normalized.value, Starting)])
    case Others(g) => if FaithfulChange(w.registry, g) then w.(registry := g) else w
    case CommitNow(i, timestamp, facts, delivery) =>
      if i < |w.clients| && w.clients[i].phase.Committing? then CommitStep(w, i, timestamp, facts, delivery) else w
    case _ =>
      if a.client < |w.clients| then SetPhase(w, a.client, ClientStep(w.clients[a.client], a, w.registry)) else w
  }

  ghost function After(w: World, actions: seq<Action>): World {
    if actions == [] then w else Next(After(w, actions[..|actions| - 1]), actions[|actions| - 1])
  }

  lemma Snoc(w: World, actions: seq<Action>, a: Action)
    ensures After(w, actions + [a]) == Next(After(w, actions), a)
  {
    assert (actions + [a])[..|actions|] == actions;
  }

  // ----- What every step keeps

  /** A registry a client read: never newer than the registry, and with its claims if as new. */
  predicate PastOf(seen: Registry, g: Registry) {
    seen.claimSetGeneration <= g.claimSetGeneration
    && (seen.claimSetGeneration == g.claimSetGeneration ==> seen.claims == g.claims)
  }

  /** The result is one that a run of the protocol gives for some answers. */
  ghost predicate IsRunResult(n: Normalized, r: Result<HandoffResult, Code>) {
    exists a :: r == RunResult(n, a)
  }

  /** What a client knows for certain in each phase. */
  ghost predicate Knows(c: Client, g: Registry) {
    WellFormed(c.normalized) &&
    match c.phase
    case Starting => true
    case Finished(r) => IsRunResult(c.normalized, r)
    case Fencing(seen) => PastOf(seen, g) && Allows(seen, c.normalized)
    case Draining(seen, f) => PastOf(seen, g) && Allows(seen, c.normalized) && IsFenceFor(f, c.normalized)
    case Rereading(seen, f, q) => PastOf(seen, g) && Allows(seen, c.normalized) && Quieted(f, q, c.normalized)
    case Committing(seen, f, q, snapshot) =>
      PastOf(seen, g) && Allows(seen, c.normalized) && Quieted(f, q, c.normalized)
      && snapshot.claimSetGeneration == seen.claimSetGeneration && Allows(snapshot, c.normalized)
  }

  /** A transfer happened after fence and quiescence, on the very claims its client validated first,
      and did exactly what was asked. */
  ghost predicate Sound(t: Transfer) {
    var n := t.input.normalized;
    && Quieted(t.input.fence, t.input.quiescence, n)
    && t.before.claims == t.seen.claims && t.before.claimSetGeneration == t.seen.claimSetGeneration
    && MayMove(t.seen, n) && MayMove(t.input.snapshot, n) && MayMove(t.before, n)
    && TransferredFrom(t.before, t.after, n)
  }

  predicate Records(r: OperationRecord, n: Normalized) {
    r.operationId == n.operationId && SameOperation(r, n)
  }

  /** The record of completed handoffs grew by exactly the transfers, none twice. */
  predicate Recorded(base: seq<OperationRecord>, w: World) {
    && |w.registry.completed| == |base| + |w.transfers| && base <= w.registry.completed
    && (forall k :: 0 <= k < |w.transfers| ==>
          Records(w.registry.completed[|base| + k], w.transfers[k].input.normalized))
    && (forall k, l :: 0 <= k < l < |w.registry.completed| ==>
          w.registry.completed[k].operationId != w.registry.completed[l].operationId)
  }

  ghost predicate Inv(base: seq<OperationRecord>, w: World) {
    && Recorded(base, w)
    && (forall i :: 0 <= i < |w.clients| ==> Knows(w.clients[i], w.registry))
    && AllSound(w.transfers)
  }

  ghost predicate AllSound(transfers: seq<Transfer>) {
    forall k :: 0 <= k < |transfers| ==> Sound(transfers[k])
  }

  lemma KnowledgeLasts(c: Client, g: Registry, g': Registry)
    requires Knows(c, g) && PastOf(g, g')
    ensures Knows(c, g')
  {
  }

  lemma PhaseStep(base: seq<OperationRecord>, w: World, i: nat, phase: Phase)
    requires Inv(base, w) && i < |w.clients| && Knows(w.clients[i].(phase := phase), w.registry)
    ensures Inv(base, SetPhase(w, i, phase))
  {
  }

  lemma OthersStep(base: seq<OperationRecord>, w: World, g: Registry)
    requires Inv(base, w) && FaithfulChange(w.registry, g)
    ensures Inv(base, w.(registry := g))
  {
    forall i | 0 <= i < |w.clients| ensures Knows(w.clients[i], g) {
      KnowledgeLasts(w.clients[i], w.registry, g);
    }
  }

  // ----- Clients follow the protocol

  lemma ReadIsRun(n: Normalized, g: Registry)
    requires WellFormed(n)
    ensures Knows(Client(n, AfterRead(n, g)), g)
  {
    var a := Answers(g, None, None, g, Err(AnythingElse));
    assert ReadResult(n, g).Some? ==> RunResult(n, a) == ReadResult(n, g).value;
  }

  lemma FenceIsRun(n: Normalized, seen: Registry, offered: Option<Fence>, g: Registry)
    requires Knows(Client(n, Fencing(seen)), g)
    ensures Knows(Client(n, AfterFence(n, seen, offered)), g)
  {
    var a := Answers(seen, offered, None, seen, Err(AnythingElse));
    var stop := FenceResult(n, seen.claimSetGeneration, offered, SourceOf(n, seen));
    assert stop.Some? ==> RunResult(n, a) == Ok(stop.value);
  }

  lemma DrainIsRun(n: Normalized, seen: Registry, f: Fence, observed: Option<Quiescence>, g: Registry)
    requires Knows(Client(n, Draining(seen, f)), g)
    ensures Knows(Client(n, AfterDrain(n, seen, f, observed)), g)
  {
    var a := Answers(seen, Some(f), observed, seen, Err(AnythingElse));
    var stop := DrainResult(n, seen.claimSetGeneration, f, observed, SourceOf(n, seen));
    assert stop.Some? ==> RunResult(n, a) == Ok(stop.value);
  }

  lemma RereadIsRun(n: Normalized, seen: Registry, f: Fence, q: Quiescence, g: Registry)
    requires Knows(Client(n, Rereading(seen, f, q)), g)
    ensures Knows(Client(n, AfterReread(n, seen, f, q, g)), g)
  {
    var a := Answers(seen, Some(f), Some(q), g, Err(AnythingElse));
    var stop := RereadResult(n, seen.claimSetGeneration, g, f.epoch);
    assert stop.Some? ==> RunResult(n, a) == stop.value;
  }

  lemma ClientStepKnows(c: Client, a: Action, g: Registry)
    requires Knows(c, g)
    ensures Knows(c.(phase := ClientStep(c, a, g)), g)
  {
    var n := c.normalized;
    match (a, c.phase)
    case (Read(_), Starting) => ReadIsRun(n, g);
    case (CloseSource(_, offered), Fencing(seen)) => FenceIsRun(n, seen, offered, g);
    case (ObserveDrain(_, observed), Draining(seen, f)) => DrainIsRun(n, seen, f, observed, g);
    case (ReadAgain(_), Rereading(seen, f, q)) => RereadIsRun(n, seen, f, q, g);
    case _ =>
  }

  /** A client that is about to commit is where the protocol calls the commit, with that input, and
      whatever it hears, its result is the protocol's. */
  lemma CommittingIsProtocol(c: Client, g: Registry, heard: Result<CommitResult, CommitFailure>)
    requires c.phase.Committing? && Knows(c, g)
    ensures MayCommit(AnswersOf(c, heard), c.normalized)
    ensures FullRun(AnswersOf(c, heard), c.normalized)[4] == Commit(InputOf(c))
    ensures RunResult(c.normalized, AnswersOf(c, heard)) ==
      Ok(AfterCommit(AnswersOf(c, heard), c.normalized, Some(c.phase.fence.epoch),
        SourceOf(c.normalized, c.phase.snapshot)))
  {
  }

  // ----- The commit keeps the invariant

  /** The commit transfers. */
  ghost predicate CommitMoves(w: World, i: nat, timestamp: string, facts: FactSource)
    requires i < |w.clients| && w.clients[i].phase.Committing?
  {
    var committed := CommitHandoff(w.registry, InputOf(w.clients[i]), timestamp, facts);
    committed.Ok? && committed.value.0.status == Transferred
  }

  ghost function TransferMade(w: World, i: nat, timestamp: string, facts: FactSource): Transfer
    requires i < |w.clients| && w.clients[i].phase.Committing? && CommitMoves(w, i, timestamp, facts)
  {
    var c := w.clients[i];
    Transfer(InputOf(c), c.phase.seen, w.registry, CommitHandoff(w.registry, InputOf(c), timestamp, facts).value.1)
  }

  lemma TransferIsMade(w: World, i: nat, timestamp: string, facts: FactSource)
    requires i < |w.clients| && w.clients[i].phase.Committing? && Knows(w.clients[i], w.registry)
    requires CommitMoves(w, i, timestamp, facts)
    ensures var t := TransferMade(w, i, timestamp, facts); TransferredFrom(t.before, t.after, t.input.normalized)
  {
    CommitTransfers(w.registry, InputOf(w.clients[i]), timestamp, facts);
  }

  lemma TransferIsNew(w: World, i: nat, timestamp: string, facts: FactSource)
    requires i < |w.clients| && w.clients[i].phase.Committing? && Knows(w.clients[i], w.registry)
    requires CommitMoves(w, i, timestamp, facts)
    ensures var c := w.clients[i]; var g := TransferMade(w, i, timestamp, facts).after;
      && PastOf(w.registry, g) && w.registry.claimSetGeneration == c.phase.snapshot.claimSetGeneration
      && Allows(w.registry, c.normalized) && FindRecord(w.registry.completed, c.normalized.operationId) == None
      && g.completed == w.registry.completed + [RecordOf(c.normalized, g.claimSetGeneration)]
  {
    var source := CommitStages(w.registry, InputOf(w.clients[i]), timestamp, facts);
    var again := AllowedMeans(w.registry, w.clients[i].normalized);
  }

  lemma TransferIsSound(w: World, i: nat, timestamp: string, facts: FactSource)
    requires i < |w.clients| && w.clients[i].phase.Committing? && Knows(w.clients[i], w.registry)
    requires CommitMoves(w, i, timestamp, facts)
    ensures Sound(TransferMade(w, i, timestamp, facts))
  {
    var c := w.clients[i];
    TransferIsMade(w, i, timestamp, facts);
    TransferIsNew(w, i, timestamp, facts);
    AllowedIff(w.registry, c.normalized);
    AllowedIff(c.phase.seen, c.normalized);
    AllowedIff(c.phase.snapshot, c.normalized);
  }

  lemma RecordedOnce(base: seq<OperationRecord>, w: World, t: Transfer, record: OperationRecord, w': World)
    requires Recorded(base, w) && FindRecord(w.registry.completed, record.operationId) == None
    requires Records(record, t.input.normalized)
    requires w'.registry.completed == w.registry.completed + [record] && w'.transfers == w.transfers + [t]
    ensures Recorded(base, w')
  {
    forall k | 0 <= k < |w.registry.completed| ensures w.registry.completed[k].operationId != record.operationId {
      assert w.registry.completed[k] in w.registry.completed;
    }
  }

  lemma EveryoneKnows(w: World, i: nat, phase: Phase, g: Registry)
    requires forall k :: 0 <= k < |w.clients| ==> Knows(w.clients[k], w.registry)
    requires i < |w.clients| && Knows(w.clients[i].(phase := phase), w.registry) && PastOf(w.registry, g)
    ensures var clients := SetPhase(w, i, phase).clients;
      forall k :: 0 <= k < |clients| ==> Knows(clients[k], g)
  {
    var clients := SetPhase(w, i, phase).clients;
    forall k | 0 <= k < |clients| ensures Knows(clients[k], g) {
      KnowledgeLasts(clients[k], w.registry, g);
    }
  }

  lemma OneMoreSound(transfers: seq<Transfer>, t: Transfer)
    requires AllSound(transfers) && Sound(t)
    ensures AllSound(transfers + [t])
  {
  }

  lemma OneTransferKeepsInv(base: seq<OperationRecord>, w: World, i: nat, phase: Phase, g: Registry, t: Transfer)
    requires Inv(base, w) && i < |w.clients| && Knows(w.clients[i].(phase := phase), w.registry)
    requires Sound(t) && PastOf(w.registry, g)
    requires FindRecord(w.registry.completed, t.input.normalized.operationId) == None
    requires g.completed == w.registry.completed + [RecordOf(t.input.normalized, g.claimSetGeneration)]
    ensures Inv(base, SetPhase(w, i, phase).(registry := g, transfers := w.transfers + [t]))
  {
    var w' := SetPhase(w, i, phase).(registry := g, transfers := w.transfers + [t]);
    OneMoreSound(w.transfers, t);
    RecordedOnce(base, w, t, RecordOf(t.input.normalized, g.claimSetGeneration), w');
    EveryoneKnows(w, i, phase, g);
  }

  lemma EffectKeepsInv(base: seq<OperationRecord>, w: World, i: nat, timestamp: string, facts: FactSource, phase: Phase)
    requires Inv(base, w) && i < |w.clients| && w.clients[i].phase.Committing?
    requires CommitHandoff(w.registry, InputOf(w.clients[i]), timestamp, facts).Ok?
    requires CommitHandoff(w.registry, InputOf(w.clients[i]), timestamp, facts).value.0.status == Transferred
    requires Knows(w.clients[i].(phase := phase), w.registry)
    ensures var c := w.clients[i]; var g := CommitHandoff(w.registry, InputOf(c), timestamp, facts).value.1;
      var t := Transfer(InputOf(c), c.phase.seen, w.registry, g);
      Inv(base, SetPhase(w, i, phase).(registry := g, transfers := w.transfers + [t]))
  {
    var c := w.clients[i];
    var g := CommitHandoff(w.registry, InputOf(c), timestamp, facts).value.1;
    TransferIsSound(w, i, timestamp, facts);
    TransferIsNew(w, i, timestamp, facts);
    OneTransferKeepsInv(base, w, i, phase, g, Transfer(InputOf(c), c.phase.seen, w.registry, g));
  }

  lemma CommitKeepsInv(base: seq<OperationRecord>, w: World, i: nat, timestamp: string, facts: FactSource,
      delivery: Delivery)
    requires Inv(base, w) && i < |w.clients| && w.clients[i].phase.Committing?
    ensures Inv(base, CommitStep(w, i, timestamp, facts, delivery))
  {
    var c := w.clients[i];
    var heard := Heard(w.registry, c, timestamp, facts, delivery);
    var phase := Finished(Ok(CommitResultOf(w.registry, c, timestamp, facts, delivery)));
    CommittingIsProtocol(c, w.registry, heard);
    assert IsRunResult(c.normalized, phase.result);
    if TakesEffect(w.registry, c, timestamp, facts, delivery) {
      EffectKeepsInv(base, w, i, timestamp, facts, phase);
    } else {
      PhaseStep(base, w, i, phase);
    }
  }

  /** A step of a client on its own. */
  predicate IsOwnStep(w: World, a: Action) {
    !a.Arrive? && !a.Others? && !a.CommitNow? && a.client < |w.clients|
  }

  lemma OwnStepKeepsInv(base: seq<OperationRecord>, w: World, a: Action)
    requires Inv(base, w) && IsOwnStep(w, a)
    ensures Inv(base, SetPhase(w, a.client, ClientStep(w.clients[a.client], a, w.registry)))
  {
    var c := w.clients[a.client];
    assert Knows(c, w.registry);
    ClientStepKnows(c, a, w.registry);
    PhaseStep(base, w, a.client, ClientStep(c, a, w.registry));
  }

  lemma ArrivalKeepsInv(base: seq<OperationRecord>, w: World, o: Options, digest: Digest)
    requires Inv(base, w)
    ensures Inv(base, Next(w, Arrive(o, digest)))
  {
    if NormalizeOptions(o, digest).Ok? { NormalizedIsWellFormed(o, digest); }
  }

  lemma StepKeepsInv(base: seq<OperationRecord>, w: World, a: Action)
    requires Inv(base, w)
    ensures Inv(base, Next(w, a))
  {
    if a.Arrive? {
      ArrivalKeepsInv(base, w, a.options, a.digest);
    } else if a.Others? {
      if FaithfulChange(w.registry, a.registry) { OthersStep(base, w, a.registry); }
    } else if a.CommitNow? {
      if a.client < |w.clients| && w.clients[a.client].phase.Committing? {
        CommitKeepsInv(base, w, a.client, a.timestamp, a.facts, a.delivery);
      }
    } else if a.client < |w.clients| {
      OwnStepKeepsInv(base, w, a);
    }
  }

  /** Every interleaving, of any length, keeps the invariant. */
  lemma {:induction false} RunsKeepInv(w: World, actions: seq<Action>)
    requires w.clients == [] && w.transfers == [] && ValidHistory(w.registry.completed)
    ensures Inv(w.registry.completed, After(w, actions))
  {
    if actions != [] {
      RunsKeepInv(w, actions[..|actions| - 1]);
      StepKeepsInv(w.registry.completed, After(w, actions[..|actions| - 1]), actions[|actions| - 1]);
    }
  }

  // ----- What follows

  lemma RecordedTransfersDiffer(base: seq<OperationRecord>, w: World, k: nat, l: nat)
    requires Recorded(base, w) && k < l < |w.transfers|
    ensures w.transfers[k].input.normalized.operationId != w.transfers[l].input.normalized.operationId
    ensures forall r :: r in base ==> r.operationId != w.transfers[k].input.normalized.operationId
  {
    var completed := w.registry.completed;
    assert completed[|base| + k].operationId != completed[|base| + l].operationId;
    forall r | r in base ensures r.operationId != w.transfers[k].input.normalized.operationId {
      var j :| 0 <= j < |base| && base[j] == r;
      assert completed[j] == r && completed[j].operationId != completed[|base| + k].operationId;
    }
  }

  /** However often an operation is retried, however the retries interleave and whatever answers get
      lost, it transfers at most once, and never if it was already on record at the start. */
  lemma TransfersAtMostOnce(w: World, actions: seq<Action>, k: nat, l: nat)
    requires w.clients == [] && w.transfers == [] && ValidHistory(w.registry.completed)
    requires k < l < |After(w, actions).transfers|
    ensures var ts := After(w, actions).transfers;
      ts[k].input.normalized.operationId != ts[l].input.normalized.operationId
    ensures forall r :: r in w.registry.completed ==>
      r.operationId != After(w, actions).transfers[k].input.normalized.operationId
  {
    RunsKeepInv(w, actions);
    RecordedTransfersDiffer(w.registry.completed, After(w, actions), k, l);
  }

  /** Every transfer of every run is sound. */
  lemma EveryTransferIsSound(w: World, actions: seq<Action>, k: nat)
    requires w.clients == [] && w.transfers == [] && ValidHistory(w.registry.completed)
    requires k < |After(w, actions).transfers|
    ensures Sound(After(w, actions).transfers[k])
  {
    RunsKeepInv(w, actions);
  }

  /** Every result a client ends with is one `handoffResources` gives for some answers. */
  lemma EveryResultIsARun(w: World, actions: seq<Action>, i: nat)
    requires w.clients == [] && w.transfers == [] && ValidHistory(w.registry.completed)
    requires i < |After(w, actions).clients| && After(w, actions).clients[i].phase.Finished?
    ensures IsRunResult(After(w, actions).clients[i].normalized, After(w, actions).clients[i].phase.result)
  {
    RunsKeepInv(w, actions);
    assert Knows(After(w, actions).clients[i], After(w, actions).registry);
  }

  lemma HeardIsAccepted(c: Client, g: Registry, timestamp: string, facts: FactSource, delivery: Delivery)
    requires c.phase.Committing? && Knows(c, g)
    ensures var committed := CommitHandoff(g, InputOf(c), timestamp, facts);
      var transferred := committed.Ok? && committed.value.0.status == Transferred;
      Accepted(AnswersOf(c, Heard(g, c, timestamp, facts, delivery)), c.normalized) <==>
        transferred && delivery == Arrives
  {
    var committed := CommitHandoff(g, InputOf(c), timestamp, facts);
    if committed.Ok? && committed.value.0.status == Transferred {
      TransferIsAcceptable(g, InputOf(c), timestamp, facts);
    }
  }

  /** A client reports a move exactly when its commit transferred and the answer arrived. A transfer
      whose answer is lost leaves its client unresolved, never refused. */
  lemma MovedIffTransferredAndHeard(w: World, i: nat, timestamp: string, facts: FactSource, delivery: Delivery)
    requires i < |w.clients| && w.clients[i].phase.Committing? && Knows(w.clients[i], w.registry)
    ensures var w' := CommitStep(w, i, timestamp, facts, delivery);
      var transferred := |w'.transfers| == |w.transfers| + 1;
      var status := w'.clients[i].phase.result.value.status;
      && (status == Moved <==> transferred && delivery == Arrives)
      && (transferred ==> status == Moved || status == Unresolved)
  {
    HeardIsAccepted(w.clients[i], w.registry, timestamp, facts, delivery);
  }

  predicate ReportsMove(c: Client) {
    c.phase.Finished? && c.phase.result.Ok? && c.phase.result.value.status == Moved
  }

  predicate TransferOf(t: Transfer, c: Client) {
    t.input.normalized == c.normalized
  }

  /** Every reported move has its transfer. */
  predicate MovesAreTransfers(w: World) {
    forall i :: 0 <= i < |w.clients| && ReportsMove(w.clients[i]) ==>
      exists k :: 0 <= k < |w.transfers| && TransferOf(w.transfers[k], w.clients[i])
  }

  /** No two clients report the move of one operation. */
  predicate MovesDiffer(w: World) {
    forall i, j :: 0 <= i < j < |w.clients| && ReportsMove(w.clients[i]) && ReportsMove(w.clients[j]) ==>
      w.clients[i].normalized.operationId != w.clients[j].normalized.operationId
  }

  lemma OwnStepsNeverMove(c: Client, a: Action, g: Registry)
    requires !c.phase.Finished?
    ensures !ReportsMove(c.(phase := ClientStep(c, a, g)))
  {
  }

  lemma PhaseKeepsMoves(w: World, i: nat, phase: Phase)
    requires MovesAreTransfers(w) && i < |w.clients|
    requires ReportsMove(w.clients[i].(phase := phase)) ==>
      exists k :: 0 <= k < |w.transfers| && TransferOf(w.transfers[k], w.clients[i])
    ensures MovesAreTransfers(SetPhase(w, i, phase))
  {
  }

  lemma OneMoreTransfer(w: World, g: Registry, t: Transfer, i: nat, phase: Phase)
    requires MovesAreTransfers(w) && i < |w.clients| && TransferOf(t, w.clients[i])
    ensures MovesAreTransfers(SetPhase(w, i, phase).(registry := g, transfers := w.transfers + [t]))
  {
    var ts := w.transfers + [t];
    var w' := SetPhase(w, i, phase).(registry := g, transfers := ts);
    forall j | 0 <= j < |w'.clients| && ReportsMove(w'.clients[j])
      ensures exists k :: 0 <= k < |ts| && TransferOf(ts[k], w'.clients[j])
    {
      if j == i {
        assert TransferOf(ts[|w.transfers|], w'.clients[j]);
      } else {
        var k :| 0 <= k < |w.transfers| && TransferOf(w.transfers[k], w.clients[j]);
        assert TransferOf(ts[k], w'.clients[j]);
      }
    }
  }

  lemma CommitKeepsMoves(w: World, i: nat, timestamp: string, facts: FactSource, delivery: Delivery)
    requires MovesAreTransfers(w) && i < |w.clients| && w.clients[i].phase.Committing?
      && Knows(w.clients[i], w.registry)
    ensures MovesAreTransfers(CommitStep(w, i, timestamp, facts, delivery))
  {
    var c := w.clients[i];
    var phase := Finished(Ok(CommitResultOf(w.registry, c, timestamp, facts, delivery)));
    if TakesEffect(w.registry, c, timestamp, facts, delivery) {
      var g := CommitHandoff(w.registry, InputOf(c), timestamp, facts).value.1;
      OneMoreTransfer(w, g, Transfer(InputOf(c), c.phase.seen, w.registry, g), i, phase);
    } else {
      HeardIsAccepted(c, w.registry, timestamp, facts, delivery);
      PhaseKeepsMoves(w, i, phase);
    }
  }

  lemma OwnStepKeepsMoves(w: World, a: Action)
    requires MovesAreTransfers(w) && IsOwnStep(w, a)
    ensures MovesAreTransfers(SetPhase(w, a.client, ClientStep(w.clients[a.client], a, w.registry)))
  {
    var c := w.clients[a.client];
    if c.phase.Finished? {
      assert c.(phase := ClientStep(c, a, w.registry)) == c;
    } else {
      OwnStepsNeverMove(c, a, w.registry);
    }
    PhaseKeepsMoves(w, a.client, ClientStep(c, a, w.registry));
  }

  /** Whoever reported a move has its operation on record. */
  lemma MoverIsRecorded(base: seq<OperationRecord>, w: World, j: nat)
    requires Recorded(base, w) && MovesAreTransfers(w) && j < |w.clients| && ReportsMove(w.clients[j])
    ensures FindRecord(w.registry.completed, w.clients[j].normalized.operationId).Some?
  {
    var k :| 0 <= k < |w.transfers| && TransferOf(w.transfers[k], w.clients[j]);
    var r := w.registry.completed[|base| + k];
    assert r in w.registry.completed && Records(r, w.transfers[k].input.normalized);
  }

  lemma PhaseKeepsDiffering(w: World, i: nat, phase: Phase)
    requires MovesDiffer(w) && i < |w.clients|
    requires ReportsMove(w.clients[i].(phase := phase)) ==>
      forall j :: 0 <= j < |w.clients| && j != i && ReportsMove(w.clients[j]) ==>
        w.clients[j].normalized.operationId != w.clients[i].normalized.operationId
    ensures MovesDiffer(SetPhase(w, i, phase))
  {
  }

  /** An operation that is not on record was not reported as moved. */
  lemma NewMoverDiffers(base: seq<OperationRecord>, w: World, i: nat)
    requires Recorded(base, w) && MovesAreTransfers(w) && i < |w.clients|
    requires FindRecord(w.registry.completed, w.clients[i].normalized.operationId) == None
    ensures forall j :: 0 <= j < |w.clients| && j != i && ReportsMove(w.clients[j]) ==>
      w.clients[j].normalized.operationId != w.clients[i].normalized.operationId
  {
    forall j | 0 <= j < |w.clients| && j != i && ReportsMove(w.clients[j])
      ensures w.clients[j].normalized.operationId != w.clients[i].normalized.operationId
    {
      MoverIsRecorded(base, w, j);
    }
  }

  lemma CommitKeepsDiffering(base: seq<OperationRecord>, w: World, i: nat, timestamp: string, facts: FactSource,
      delivery: Delivery)
    requires Inv(base, w) && MovesAreTransfers(w) && MovesDiffer(w)
    requires i < |w.clients| && w.clients[i].phase.Committing?
    ensures MovesDiffer(CommitStep(w, i, timestamp, facts, delivery))
  {
    var c := w.clients[i];
    var phase := Finished(Ok(CommitResultOf(w.registry, c, timestamp, facts, delivery)));
    assert Knows(c, w.registry);
    HeardIsAccepted(c, w.registry, timestamp, facts, delivery);
    if ReportsMove(c.(phase := phase)) {
      TransferIsNew(w, i, timestamp, facts);
      NewMoverDiffers(base, w, i);
    }
    PhaseKeepsDiffering(w, i, phase);
  }

  lemma OwnStepKeepsDiffering(w: World, a: Action)
    requires MovesDiffer(w) && IsOwnStep(w, a)
    ensures MovesDiffer(SetPhase(w, a.client, ClientStep(w.clients[a.client], a, w.registry)))
  {
    var c := w.clients[a.client];
    if c.phase.Finished? {
      assert SetPhase(w, a.client, c.phase) == w;
    } else {
      OwnStepsNeverMove(c, a, w.registry);
      PhaseKeepsDiffering(w, a.client, ClientStep(c, a, w.registry));
    }
  }

  /** Every reported move has its own transfer. */
  predicate MovesAreOwned(w: World) {
    MovesAreTransfers(w) && MovesDiffer(w)
  }

  /** Arrivals and other writers report nothing. */
  lemma OutsideStepKeepsMoves(w: World, a: Action)
    requires MovesAreOwned(w) && (a.Arrive? || a.Others?)
    ensures MovesAreOwned(Next(w, a))
  {
    var w' := Next(w, a);
    assert w'.transfers == w.transfers && w.clients <= w'.clients;
    assert forall i :: |w.clients| <= i < |w'.clients| ==> !ReportsMove(w'.clients[i]);
    forall i | 0 <= i < |w'.clients| && ReportsMove(w'.clients[i])
      ensures exists k :: 0 <= k < |w'.transfers| && TransferOf(w'.transfers[k], w'.clients[i])
    {
      assert w'.clients[i] == w.clients[i];
    }
  }

  lemma StepKeepsMoves(base: seq<OperationRecord>, w: World, a: Action)
    requires Inv(base, w) && MovesAreOwned(w)
    ensures MovesAreOwned(Next(w, a))
  {
    if a.Arrive? || a.Others? {
      OutsideStepKeepsMoves(w, a);
    } else if a.CommitNow? {
      if a.client < |w.clients| && w.clients[a.client].phase.Committing? {
        CommitKeepsMoves(w, a.client, a.timestamp, a.facts, a.delivery);
        CommitKeepsDiffering(base, w, a.client, a.timestamp, a.facts, a.delivery);
      }
    } else if a.client < |w.clients| {
      OwnStepKeepsMoves(w, a);
      OwnStepKeepsDiffering(w, a);
    }
  }

  /** In every run, whoever reports a move has transferred just what it asked for, and no one else
      reports the move of that operation. */
  lemma {:induction false} EveryMoveIsATransfer(w: World, actions: seq<Action>)
    requires w.clients == [] && w.transfers == [] && ValidHistory(w.registry.completed)
    ensures MovesAreOwned(After(w, actions))
  {
    if actions != [] {
      var before, last := actions[..|actions| - 1], actions[|actions| - 1];
      EveryMoveIsATransfer(w, before);
      RunsKeepInv(w, before);
      StepKeepsMoves(w.registry.completed, After(w, before), last);
    }
  }

  /** An unresolved client says that its source claim is retained; if its answer was lost after the
      write, the claim is gone and the destination holds it. */
  lemma LostAnswerHidesTheMove(w: World, i: nat, timestamp: string, facts: FactSource)
    requires i < |w.clients| && w.clients[i].phase.Committing? && Knows(w.clients[i], w.registry)
    requires TakesEffect(w.registry, w.clients[i], timestamp, facts, LostAfterWrite)
    ensures var w' := CommitStep(w, i, timestamp, facts, LostAfterWrite);
      var r := w'.clients[i].phase.result; var n := w.clients[i].normalized;
      && r.Ok? && r.value.status == Unresolved && r.value.code == DurabilityUncertain && r.value.sourceRetained
      && ExactClaims(w'.registry.claims, n.fromSessionId, n.resource) == []
      && |ExactClaims(w'.registry.claims, n.toSessionId, n.resource)| == 1
  {
    TransferIsMade(w, i, timestamp, facts);
  }

  // ----- Retries

  /** The operation is on record, bound to this very request. */
  predicate OnRecord(g: Registry, n: Normalized) {
    FindRecord(g.completed, n.operationId).Some? && SameOperation(FindRecord(g.completed, n.operationId).value, n)
  }

  predicate Readable(g: Registry, n: Normalized) {
    && ValidRegistry(g) && FindExact(g.claims, n.fromSessionId, n.resource).Ok?
    && FindExact(g.claims, n.toSessionId, n.resource).Ok?
  }

  /** A retry of a recorded operation ends with its first read, moves nothing, and reports it as
      unchanged exactly when the registry can be believed. */
  lemma RetryFindsItDone(w: World, i: nat)
    requires i < |w.clients| && w.clients[i].phase == Starting && OnRecord(w.registry, w.clients[i].normalized)
    ensures var w' := Next(w, Action.Read(i));
      && w'.registry == w.registry && w'.transfers == w.transfers && w'.clients[i].phase.Finished?
      && (w'.clients[i].phase.result.Ok? <==> Readable(w.registry, w.clients[i].normalized))
      && (w'.clients[i].phase.result.Ok? ==>
            w'.clients[i].phase.result.value.status == Unchanged && w'.clients[i].phase.result.value.idempotent)
  {
  }

  /** Two requests for the same handoff, whatever generation they were made at. */
  predicate SameRequest(n: Normalized, m: Normalized) {
    n.(claimSetGeneration := m.claimSetGeneration) == m
  }

  lemma RecordedIsFound(base: seq<OperationRecord>, w: World, k: nat, n: Normalized)
    requires Recorded(base, w) && k < |w.transfers| && SameRequest(n, w.transfers[k].input.normalized)
    ensures OnRecord(w.registry, n)
  {
    var completed := w.registry.completed;
    var r := completed[|base| + k];
    assert r in completed && Records(r, w.transfers[k].input.normalized);
    var found := FindRecord(completed, n.operationId).value;
    var j :| 0 <= j < |completed| && completed[j] == found;
    assert j == |base| + k;
  }

  lemma TransfersStayOnRecord(w: World, actions: seq<Action>, k: nat, n: Normalized)
    requires w.clients == [] && w.transfers == [] && ValidHistory(w.registry.completed)
    requires k < |After(w, actions).transfers| && SameRequest(n, After(w, actions).transfers[k].input.normalized)
    ensures OnRecord(After(w, actions).registry, n)
  {
    RunsKeepInv(w, actions);
    RecordedIsFound(w.registry.completed, After(w, actions), k, n);
  }

  /** In every run, once a transfer was made, whoever asks for it again moves nothing and is told
      that it was done already, even if the first client never learned of it. */
  lemma RetriesMoveNothing(w: World, actions: seq<Action>, k: nat, i: nat)
    requires w.clients == [] && w.transfers == [] && ValidHistory(w.registry.completed)
    requires k < |After(w, actions).transfers| && i < |After(w, actions).clients|
    requires After(w, actions).clients[i].phase == Starting
    requires SameRequest(After(w, actions).clients[i].normalized, After(w, actions).transfers[k].input.normalized)
    requires Readable(After(w, actions).registry, After(w, actions).clients[i].normalized)
    ensures var before, after := After(w, actions), Next(After(w, actions), Action.Read(i));
      && after.registry == before.registry && after.transfers == before.transfers
      && after.clients[i].phase.Finished? && after.clients[i].phase.result.Ok?
      && after.clients[i].phase.result.value.status == Unchanged
  {
    TransfersStayOnRecord(w, actions, k, After(w, actions).clients[i].normalized);
    RetryFindsItDone(After(w, actions), i);
  }
}
