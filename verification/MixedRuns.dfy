/** The registry under everything at once: transactions of any sessions, changes of the session
    list, and handoffs with their retries and lost answers, in any interleaving. */
module MixedRuns {
  import opened ClaimSets
  import opened HandoffCommit
  import opened HandoffProtocol
  import opened HandoffRuns
  import opened ResourceClaims
  import opened ResourceHandoff
  import Generations
  import Sorting
  import Transactions = CoordinationTransactions

  datatype Step =
    | Transact(request: Transactions.Request, facts: FactSource)
    | SessionsChange(sessions: seq<HandoffSession>)
    | Handoff(action: Action)

  function SessionOf(s: HandoffSession): Transactions.Session {
    Transactions.Session(s.sessionId, s.state, s.repositoryId, s.worktreePath)
  }

  /** What a transaction sees of the registry. */
  function SnapshotOf(g: Registry): Transactions.Snapshot {
    Transactions.Snapshot(g.repositoryId, g.claimSetGeneration,
                          seq(|g.sessions|, i requires 0 <= i < |g.sessions| => SessionOf(g.sessions[i])), g.claims)
  }

  /** The registry after a transaction: a rejected one writes nothing, an accepted one its claims
      and its generation. */
  ghost function Transacted(g: Registry, r: Transactions.Request, facts: FactSource): Registry {
    match Transactions.PlanTransaction(SnapshotOf(g), r, facts)
    case Err(_) => g
    case Ok(p) => g.(claims := p.claims, claimSetGeneration := p.claimSetGeneration)
  }

  ghost function NextOf(w: World, step: Step): World {
    match step
    case Transact(r, facts) => w.(registry := Transacted(w.registry, r, facts))
    case SessionsChange(sessions) => w.(registry := w.registry.(sessions := sessions))
    case Handoff(a) => HandoffRuns.Next(w, a)
  }

  ghost function AfterAll(w: World, steps: seq<Step>): World {
    if steps == [] then w else NextOf(AfterAll(w, steps[..|steps| - 1]), steps[|steps| - 1])
  }

  /** Evidence is honest, session identifiers carry no NUL, and the registry has no other writers. */
  ghost predicate FairStep(step: Step) {
    match step
    case Transact(r, facts) => Honest(facts) && '\0' !in r.sessionId
    case SessionsChange(_) => true
    case Handoff(a) => !a.Others? && (a.CommitNow? ==> Honest(a.facts))
  }

  ghost predicate Fair(steps: seq<Step>) {
    forall k :: 0 <= k < |steps| ==> FairStep(steps[k])
  }

  // ----- One step

  lemma TransactionKeepsOrder(g: Registry, r: Transactions.Request, facts: FactSource)
    requires Orderly(g.claims) && Honest(facts) && '\0' !in r.sessionId
    ensures Orderly(Transacted(g, r, facts).claims)
    ensures FaithfulChange(g, Transacted(g, r, facts))
  {
    if Transactions.PlanTransaction(SnapshotOf(g), r, facts).Ok? {
      PlanKeepsCoordination(SnapshotOf(g), r, facts);
      Generations.GenerationCountsChanges(SnapshotOf(g), r, facts);
      Generations.IdempotentPlanKeepsTheList(SnapshotOf(g), r, facts);
    }
  }

  lemma CommitKeepsOrder(g: Registry, input: CommitInput, timestamp: string, facts: FactSource)
    requires Orderly(g.claims) && Honest(facts) && CommitHandoff(g, input, timestamp, facts).Ok?
    requires CommitHandoff(g, input, timestamp, facts).value.0.status == Transferred
    ensures var g' := CommitHandoff(g, input, timestamp, facts).value.1;
      Orderly(g'.claims) && g'.claimSetGeneration == g.claimSetGeneration + 1
  {
    CommitKeepsCoordination(g, input, timestamp, facts);
    var source := CommitStages(g, input, timestamp, facts);
    var destination := DestinationClaim(g, input.normalized, timestamp);
    Sorting.SortSorts(Without(g.claims, source.claimId) + [destination], ClaimSortKey);
  }

  lemma CommitStepKeepsOrder(w: World, i: nat, timestamp: string, facts: FactSource, delivery: Delivery)
    requires Orderly(w.registry.claims) && Honest(facts) && i < |w.clients| && w.clients[i].phase.Committing?
    ensures var g := CommitStep(w, i, timestamp, facts, delivery).registry;
      Orderly(g.claims) && PastOf(w.registry, g)
  {
    if TakesEffect(w.registry, w.clients[i], timestamp, facts, delivery) {
      CommitKeepsOrder(w.registry, InputOf(w.clients[i]), timestamp, facts);
    }
  }

  lemma StepKeepsOrder(w: World, step: Step)
    requires Orderly(w.registry.claims) && FairStep(step)
    ensures Orderly(NextOf(w, step).registry.claims) && PastOf(w.registry, NextOf(w, step).registry)
  {
    match step
    case Transact(r, facts) => TransactionKeepsOrder(w.registry, r, facts);
    case SessionsChange(_) =>
    case Handoff(a) =>
      if a.CommitNow? && a.client < |w.clients| && w.clients[a.client].phase.Committing? {
        CommitStepKeepsOrder(w, a.client, a.timestamp, a.facts, a.delivery);
      }
  }

  // ----- Whole runs

  /** Every mixed run from an orderly registry stays coordinated and sorted, the generation never
      falls, and it stands still only while the claims do. */
  lemma {:induction false} MixedRunsStayOrderly(w: World, steps: seq<Step>)
    requires Orderly(w.registry.claims) && Fair(steps)
    ensures Orderly(AfterAll(w, steps).registry.claims) && PastOf(w.registry, AfterAll(w, steps).registry)
  {
    if steps != [] {
      MixedRunsStayOrderly(w, steps[..|steps| - 1]);
      StepKeepsOrder(AfterAll(w, steps[..|steps| - 1]), steps[|steps| - 1]);
    }
  }

  lemma {:induction false} AfterAllConcat(w: World, a: seq<Step>, b: seq<Step>)
    ensures AfterAll(w, a + b) == AfterAll(AfterAll(w, a), b)
  {
    if b == [] {
      assert a + b == a;
    } else {
      AfterAllConcat(w, a, b[..|b| - 1]);
      assert (a + b)[..|a + b| - 1] == a + b[..|b| - 1] && (a + b)[|a + b| - 1] == b[|b| - 1];
    }
  }

  /** Two moments of one mixed run with equal generations have equal claim lists, although
      transactions and handoffs raise the generation by different code. */
  lemma EqualGenerationsEqualClaims(w: World, before: seq<Step>, between: seq<Step>)
    requires Orderly(w.registry.claims) && Fair(before + between)
    requires AfterAll(w, before + between).registry.claimSetGeneration
      == AfterAll(w, before).registry.claimSetGeneration
    ensures AfterAll(w, before + between).registry.claims == AfterAll(w, before).registry.claims
  {
    assert forall k :: 0 <= k < |before| ==> (before + between)[k] == before[k];
    assert forall k :: 0 <= k < |between| ==> (before + between)[|before| + k] == between[k];
    MixedRunsStayOrderly(w, before);
    MixedRunsStayOrderly(AfterAll(w, before), between);
    AfterAllConcat(w, before, between);
  }

  // ----- A mixed run is a run of handoffs among other writers

  /** The step as the handoffs see it. */
  ghost function ActionOf(w: World, step: Step): Action {
    match step
    case Transact(r, facts) => Others(Transacted(w.registry, r, facts))
    case SessionsChange(sessions) => Others(w.registry.(sessions := sessions))
    case Handoff(a) => a
  }

  /** Transactions and session changes are among the writers that handoffs allow for, so whatever
      holds of every run of handoffs holds of the mixed runs. */
  lemma {:induction false} MixedRunIsHandoffRun(w: World, steps: seq<Step>) returns (actions: seq<Action>)
    requires Orderly(w.registry.claims) && Fair(steps)
    ensures HandoffRuns.After(w, actions) == AfterAll(w, steps)
  {
    if steps == [] {
      actions := [];
    } else {
      var before, last := steps[..|steps| - 1], steps[|steps| - 1];
      var first := MixedRunIsHandoffRun(w, before);
      var there := AfterAll(w, before);
      MixedRunsStayOrderly(w, before);
      if last.Transact? { TransactionKeepsOrder(there.registry, last.request, last.facts); }
      actions := first + [ActionOf(there, last)];
      assert actions[..|actions| - 1] == first;
    }
  }

  /** The transfers of a mixed run are sound, and no operation transfers twice. */
  lemma MixedTransfersAreSound(w: World, steps: seq<Step>, k: nat)
    requires Orderly(w.registry.claims) && Fair(steps)
    requires w.clients == [] && w.transfers == [] && ValidHistory(w.registry.completed)
    requires k < |AfterAll(w, steps).transfers|
    ensures var ts := AfterAll(w, steps).transfers;
      && Sound(ts[k])
      && forall l :: 0 <= l < |ts| && l != k ==>
           ts[l].input.normalized.operationId != ts[k].input.normalized.operationId
  {
    var actions := MixedRunIsHandoffRun(w, steps);
    EveryTransferIsSound(w, actions, k);
    var ts := AfterAll(w, steps).transfers;
    forall l | 0 <= l < |ts| && l != k
      ensures ts[l].input.normalized.operationId != ts[k].input.normalized.operationId
    {
      TransfersAtMostOnce(w, actions, if k < l then k else l, if k < l then l else k);
    }
  }

  // ----- Who can touch a session's claims

  /** Only the session's own transactions, and handoffs from or to it. */
  predicate Concerns(w: World, step: Step, sessionId: string) {
    match step
    case Transact(r, _) => r.sessionId == sessionId
    case SessionsChange(_) => false
    case Handoff(a) =>
      a.CommitNow? && a.client < |w.clients|
      && (var n := w.clients[a.client].normalized; n.fromSessionId == sessionId || n.toSessionId == sessionId)
  }

  ghost predicate SameClaimsOf(g: Registry, h: Registry, sessionId: string) {
    forall c: Claim :: c.sessionId == sessionId ==> (c in g.claims <==> c in h.claims)
  }

  lemma OtherTransactionLeaves(g: Registry, r: Transactions.Request, facts: FactSource, sessionId: string)
    requires Orderly(g.claims) && r.sessionId != sessionId
    ensures SameClaimsOf(g, Transacted(g, r, facts), sessionId)
  {
    if Transactions.PlanTransaction(SnapshotOf(g), r, facts).Ok? {
      OthersAreUntouched(SnapshotOf(g), r, facts, sessionId);
      var after := Transacted(g, r, facts).claims;
      forall c: Claim | c.sessionId == sessionId ensures c in g.claims <==> c in after {
        InMultiset(Transactions.Own(g.claims, sessionId));
        InMultiset(Transactions.Own(after, sessionId));
      }
    }
  }

  lemma OtherCommitLeaves(w: World, i: nat, timestamp: string, facts: FactSource, delivery: Delivery, sessionId: string)
    requires i < |w.clients| && w.clients[i].phase.Committing? && Knows(w.clients[i], w.registry)
    requires w.clients[i].normalized.fromSessionId != sessionId && w.clients[i].normalized.toSessionId != sessionId
    ensures SameClaimsOf(w.registry, CommitStep(w, i, timestamp, facts, delivery).registry, sessionId)
  {
    if TakesEffect(w.registry, w.clients[i], timestamp, facts, delivery) {
      TransferIsMade(w, i, timestamp, facts);
    }
  }

  lemma OtherStepLeaves(base: seq<OperationRecord>, w: World, step: Step, sessionId: string)
    requires Orderly(w.registry.claims) && Inv(base, w) && FairStep(step) && !Concerns(w, step, sessionId)
    ensures SameClaimsOf(w.registry, NextOf(w, step).registry, sessionId)
  {
    match step
    case Transact(r, facts) => OtherTransactionLeaves(w.registry, r, facts, sessionId);
    case SessionsChange(_) =>
    case Handoff(a) =>
      if a.CommitNow? && a.client < |w.clients| && w.clients[a.client].phase.Committing? {
        OtherCommitLeaves(w, a.client, a.timestamp, a.facts, a.delivery, sessionId);
      }
  }

  /** No step of the run concerns the session. */
  ghost predicate NeverConcerned(w: World, steps: seq<Step>, sessionId: string) {
    forall k :: 0 <= k < |steps| ==> !Concerns(AfterAll(w, steps[..k]), steps[k], sessionId)
  }

  /** Nothing but its own transactions and the handoffs that name it changes what a session holds. */
  lemma {:induction false} OthersCannotTouch(w: World, steps: seq<Step>, sessionId: string)
    requires Orderly(w.registry.claims) && Fair(steps) && NeverConcerned(w, steps, sessionId)
    requires w.clients == [] && w.transfers == [] && ValidHistory(w.registry.completed)
    ensures SameClaimsOf(w.registry, AfterAll(w, steps).registry, sessionId)
  {
    if steps != [] {
      var before := steps[..|steps| - 1];
      assert forall k :: 0 <= k < |before| ==> before[..k] == steps[..k];
      OthersCannotTouch(w, before, sessionId);
      MixedRunsStayOrderly(w, before);
      var actions := MixedRunIsHandoffRun(w, before);
      RunsKeepInv(w, actions);
      OtherStepLeaves(w.registry.completed, AfterAll(w, before), steps[|steps| - 1], sessionId);
    }
  }
}
