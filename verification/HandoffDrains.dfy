/** Handoffs whose drain answers really come from the runtime, with every step and every reading at
    its moment: nothing of the source runs when its claim moves, as long as the fence's epoch lasts. */
module HandoffDrains {
  import opened HandoffExecution
  import opened HandoffProtocol
  import opened HandoffReports
  import opened HandoffRuns
  import opened ResourceHandoff
  import opened Wrappers
  import Witness = HandoffWitness

  /** The life of every session's runtime. */
  type Runtime = string -> Trace

  /** The moment of each step of a run. */
  type Moments = nat -> nat

  ghost predicate InOrder(when: Moments) {
    forall i: nat, j: nat :: i <= j ==> when(i) <= when(j)
  }

  /** The evidence is what waiting on the fence answered, by readings made up to now. */
  ghost predicate Attested(f: Fence, q: Quiescence, runtime: Runtime, now: nat) {
    exists at: nat -> nat ::
      Ticking(at) && DrainEnd(runtime(f.sessionId), at) <= now && q == Awaited(f, runtime(f.sessionId), at)
  }

  ghost predicate TrueAnswer(w: World, a: Action, runtime: Runtime, now: nat) {
    a.ObserveDrain? && a.observed.Some? && a.client < |w.clients| && w.clients[a.client].phase.Draining? ==>
      Attested(w.clients[a.client].phase.fence, a.observed.value, runtime, now)
  }

  /** Every drain answer of the run comes from the runtime, at the moment of its step. */
  ghost predicate TrueAnswers(w: World, actions: seq<Action>, runtime: Runtime, when: Moments) {
    forall k :: 0 <= k < |actions| ==> TrueAnswer(After(w, actions[..k]), actions[k], runtime, when(k))
  }

  ghost predicate PhaseAttested(p: Phase, runtime: Runtime, now: nat) {
    match p
    case Rereading(_, f, q) => Attested(f, q, runtime, now)
    case Committing(_, f, q, _) => Attested(f, q, runtime, now)
    case _ => true
  }

  ghost predicate AllAttested(w: World, runtime: Runtime, now: nat) {
    forall i :: 0 <= i < |w.clients| ==> PhaseAttested(w.clients[i].phase, runtime, now)
  }

  lemma AttestationLasts(w: World, runtime: Runtime, now: nat, later: nat)
    requires AllAttested(w, runtime, now) && now <= later
    ensures AllAttested(w, runtime, later)
  {
    forall i | 0 <= i < |w.clients| ensures PhaseAttested(w.clients[i].phase, runtime, later) {
      assert PhaseAttested(w.clients[i].phase, runtime, now);
    }
  }

  lemma ClientStepIsAttested(c: Client, a: Action, w: World, i: nat, runtime: Runtime, now: nat)
    requires i < |w.clients| && w.clients[i] == c && PhaseAttested(c.phase, runtime, now)
    requires !a.Arrive? && !a.Others? && !a.CommitNow? && a.client == i && TrueAnswer(w, a, runtime, now)
    ensures PhaseAttested(ClientStep(c, a, w.registry), runtime, now)
  {
  }

  lemma StepIsAttested(w: World, a: Action, runtime: Runtime, now: nat)
    requires AllAttested(w, runtime, now) && TrueAnswer(w, a, runtime, now)
    ensures AllAttested(Next(w, a), runtime, now)
  {
    if !a.Arrive? && !a.Others? && !a.CommitNow? && a.client < |w.clients| {
      ClientStepIsAttested(w.clients[a.client], a, w, a.client, runtime, now);
    }
  }

  lemma PrefixAnswersTruly(w: World, actions: seq<Action>, m: nat, runtime: Runtime, when: Moments)
    requires TrueAnswers(w, actions, runtime, when) && m <= |actions|
    ensures TrueAnswers(w, actions[..m], runtime, when)
  {
    var before := actions[..m];
    forall k | 0 <= k < |before| ensures TrueAnswer(After(w, before[..k]), before[k], runtime, when(k)) {
      assert before[..k] == actions[..k] && before[k] == actions[k];
    }
  }

  lemma {:induction false} RunsAreAttested(w: World, actions: seq<Action>, runtime: Runtime, when: Moments, now: nat)
    requires w.clients == [] && TrueAnswers(w, actions, runtime, when) && InOrder(when)
    requires actions != [] ==> when(|actions| - 1) <= now
    ensures AllAttested(After(w, actions), runtime, now)
  {
    if actions != [] {
      var k := |actions| - 1;
      var there := After(w, actions[..k]);
      PrefixAnswersTruly(w, actions, k, runtime, when);
      assert k > 0 ==> when(k - 1) <= when(k);
      RunsAreAttested(w, actions[..k], runtime, when, when(k));
      assert TrueAnswer(there, actions[k], runtime, when(k));
      StepIsAttested(there, actions[k], runtime, when(k));
      AttestationLasts(Next(there, actions[k]), runtime, when(k), now);
    }
  }

  // ----- A fence whose answer is lost

  /** The client ended without knowing of a fence. */
  predicate Unfenced(c: Client) {
    c.phase.Finished? && c.phase.result.Ok? &&
    var r := c.phase.result.value;
    r.status == Unresolved && r.code == Unobservable && r.fenceEpoch == None && r.sourceRetained
  }

  /** A client that asks for a fence ends without one exactly when none was handed out; admission of
      its source is closed all the same exactly when the answer was lost after the write. */
  lemma UnfencedIff(w: World, i: nat, first: HandoffExecution.Moment, second: HandoffExecution.Moment,
      delivery: Delivery)
    requires i < |w.clients| && w.clients[i].phase.Fencing?
    ensures var (fence, after) := Fenced(w.clients[i].normalized, first, second, delivery);
      && (Unfenced(Next(w, CloseSource(i, fence)).clients[i]) <==>
            !(Closes(first, second, delivery) && delivery == Arrives))
      && (fence == None && after != second <==> Closes(first, second, delivery) && delivery == LostAfterWrite)
      && (after != second ==> ClosedNow(after) && after.epoch == second.epoch + 1)
  {
    var fence := Fenced(w.clients[i].normalized, first, second, delivery).0;
    assert fence.Some? ==> IsFenceFor(fence.value, w.clients[i].normalized);
  }

  /** Asking again after a lost answer closes admission once more, at the epoch after. */
  lemma FenceAfterLostFence(n: Normalized, first: HandoffExecution.Moment, second: HandoffExecution.Moment)
    requires Closes(first, second, LostAfterWrite) && second.epochReadable && SafeInteger(second.epoch + 2)
    ensures var lost := Fenced(n, first, second, LostAfterWrite).1;
      Fenced(n, lost, lost, Arrives).0 == Some(FenceAt(n, second.epoch + 2))
  {
  }

  const OPEN := HandoffExecution.Moment(0, true, Some(Admission(false, 0)), [], true, true, map[], {})

  function LostFence(): Action {
    CloseSource(0, Fenced(Witness.REQUEST, OPEN, OPEN, LostAfterWrite).0)
  }

  /** A run that ends at its fence: admission of the source is closed, and the client does not know. */
  lemma LostFenceRun(w: World)
    requires w == World(Witness.BEFORE, [], [])
    ensures var end := After(w, Witness.AskFirst() + [LostFence()]);
      end.registry == Witness.BEFORE && |end.clients| == 1 && Unfenced(end.clients[0])
    ensures ClosedNow(Fenced(Witness.REQUEST, OPEN, OPEN, LostAfterWrite).1)
  {
    Witness.ReachesTheFence(w);
    Snoc(w, Witness.AskFirst(), LostFence());
    UnfencedIff(After(w, Witness.AskFirst()), 0, OPEN, OPEN, LostAfterWrite);
  }

  // ----- The step that transfers

  /** Step `m` of the run is a commit that transfers. */
  ghost predicate TransfersAt(w: World, actions: seq<Action>, m: nat) {
    && m < |actions| && actions[m].CommitNow?
    && Transfers(After(w, actions[..m]), actions[m], actions[m].client)
  }

  ghost function CommitterAt(w: World, actions: seq<Action>, m: nat): (c: Client)
    requires TransfersAt(w, actions, m)
    ensures c.phase.Committing?
  {
    After(w, actions[..m]).clients[actions[m].client]
  }

  /** A step adds a transfer to the log exactly if it is such a commit, and adds that one. */
  lemma OneStepOneTransfer(w: World, a: Action)
    ensures Next(w, a).transfers != w.transfers <==> a.CommitNow? && Transfers(w, a, a.client)
    ensures a.CommitNow? && Transfers(w, a, a.client) ==>
      && |Next(w, a).transfers| == |w.transfers| + 1
      && Next(w, a).transfers[..|w.transfers|] == w.transfers
      && Next(w, a).transfers[|w.transfers|].input == InputOf(w.clients[a.client])
  {
    if a.CommitNow? && Transfers(w, a, a.client) {
      assert |Next(w, a).transfers| == |w.transfers| + 1;
    } else {
      assert Next(w, a).transfers == w.transfers;
    }
  }

  /** A drain behind the fence that ended by now: nothing ran at its last reading, and nothing runs
      from then on while the epoch is the fence's. */
  ghost predicate DrainedBy(f: Fence, trace: Trace, now: nat) {
    exists at: nat -> nat :: Ticking(at) && ProvenQuiet(f, trace, at) && EmptyFrom(f, trace, DrainEnd(trace, at), now)
  }

  ghost predicate EmptyFrom(f: Fence, trace: Trace, end: nat, now: nat) {
    && end <= now && trace(end).running == {}
    && forall t: nat :: end <= t && trace(t).epoch == f.epoch ==> trace(t).running == {}
  }

  lemma QuietAnswerMeansDrained(f: Fence, q: Quiescence, runtime: Runtime, now: nat)
    requires Attested(f, q, runtime, now) && Lawful(runtime(f.sessionId)) && IsQuiescenceFor(f, q) && IsQuiet(q)
    ensures DrainedBy(f, runtime(f.sessionId), now)
  {
    var trace := runtime(f.sessionId);
    var at: nat -> nat :| Ticking(at) && DrainEnd(trace, at) <= now && q == Awaited(f, trace, at);
    QuietIffProven(f, trace, at);
    QuiescenceIsSimultaneous(f, trace, at);
    forall t: nat | DrainEnd(trace, at) <= t && trace(t).epoch == f.epoch ensures trace(t).running == {} {
      QuietWhileTheEpochLasts(f, trace, at, t);
    }
    assert EmptyFrom(f, trace, DrainEnd(trace, at), now);
  }

  /** A run with lawful runtimes and true drain answers, each step at its moment. */
  ghost predicate RealRun(w: World, actions: seq<Action>, runtime: Runtime, when: Moments) {
    && w.clients == [] && w.transfers == [] && ValidHistory(w.registry.completed)
    && InOrder(when) && TrueAnswers(w, actions, runtime, when) && forall id :: Lawful(runtime(id))
  }

  lemma PrefixIsAttested(w: World, actions: seq<Action>, m: nat, runtime: Runtime, when: Moments)
    requires RealRun(w, actions, runtime, when) && m < |actions|
    ensures AllAttested(After(w, actions[..m]), runtime, when(m))
  {
    PrefixAnswersTruly(w, actions, m, runtime, when);
    assert m > 0 ==> when(m - 1) <= when(m);
    RunsAreAttested(w, actions[..m], runtime, when, when(m));
  }

  lemma CommitterIsAttested(w: World, actions: seq<Action>, m: nat, runtime: Runtime, when: Moments)
    requires RealRun(w, actions, runtime, when) && TransfersAt(w, actions, m)
    ensures PhaseAttested(CommitterAt(w, actions, m).phase, runtime, when(m))
    ensures Knows(CommitterAt(w, actions, m), After(w, actions[..m]).registry)
  {
    PrefixIsAttested(w, actions, m, runtime, when);
    RunsKeepInv(w, actions[..m]);
  }

  /** In every interleaving, a drain of the source ended before the transfer: nothing ran then, nor
      since while the epoch lasted. */
  lemma EveryTransferWasDrained(w: World, actions: seq<Action>, m: nat, runtime: Runtime, when: Moments)
    requires RealRun(w, actions, runtime, when) && TransfersAt(w, actions, m)
    ensures var c := CommitterAt(w, actions, m);
      c.phase.fence.sessionId == c.normalized.fromSessionId
      && DrainedBy(c.phase.fence, runtime(c.normalized.fromSessionId), when(m))
  {
    CommitterIsAttested(w, actions, m, runtime, when);
    var c := CommitterAt(w, actions, m);
    QuietAnswerMeansDrained(c.phase.fence, c.phase.quiescence, runtime, when(m));
  }

  // ----- Nothing runs at the commit, exactly when

  /** The run transfers at step `m`, with the fence's epoch still the runtime's or not. */
  ghost predicate CommitsUnder(w: World, actions: seq<Action>, m: nat, runtime: Runtime, when: Moments, held: bool) {
    && RealRun(w, actions, runtime, when) && TransfersAt(w, actions, m)
    && var c := CommitterAt(w, actions, m);
       (runtime(c.normalized.fromSessionId)(when(m)).epoch == c.phase.fence.epoch) == held
  }

  ghost predicate IdleAt(w: World, actions: seq<Action>, m: nat, runtime: Runtime, when: Moments)
    requires TransfersAt(w, actions, m)
  {
    runtime(CommitterAt(w, actions, m).normalized.fromSessionId)(when(m)).running == {}
  }

  /** In every such run nothing of the source runs at the moment its claim moves. */
  ghost predicate MovesIdle(held: bool) {
    forall w: World, actions: seq<Action>, m: nat, runtime: Runtime, when: Moments ::
      CommitsUnder(w, actions, m, runtime, when, held) ==> IdleAt(w, actions, m, runtime, when)
  }

  lemma HeldMovesIdle(w: World, actions: seq<Action>, m: nat, runtime: Runtime, when: Moments)
    requires CommitsUnder(w, actions, m, runtime, when, true)
    ensures IdleAt(w, actions, m, runtime, when)
  {
    EveryTransferWasDrained(w, actions, m, runtime, when);
    var c := CommitterAt(w, actions, m);
    var trace := runtime(c.normalized.fromSessionId);
    var at: nat -> nat :| Ticking(at) && ProvenQuiet(c.phase.fence, trace, at)
      && EmptyFrom(c.phase.fence, trace, DrainEnd(trace, at), when(m));
  }

  function Clock(k: nat): nat {
    10 * k
  }

  /** Drained by moment 5; admission is reopened, and an execution started, before the commit. */
  function ReopenedRuntime(): Runtime {
    (id: string) => Reopened(1, 2, 5)
  }

  lemma ReopenedAnswersQuiet()
    ensures Attested(Witness.FENCE, Witness.QUIET, ReopenedRuntime(), Clock(3))
  {
    var at := (k: nat) => k;
    var trace := Reopened(1, 2, 5);
    assert trace(at(2)).records == ["x"] && DrainEnd(trace, at) == 5;
    assert ObserveOccupancy(SightOf(trace(at(4)), "x")) == Vacant;
    assert SeenAs(["x"], trace, at, Occupied, 0) == [] && SeenAs(["x"], trace, at, Uncertain, 0) == [];
    assert SeenAs(["x"], trace, at, Occupied, 1) == [] && SeenAs(["x"], trace, at, Uncertain, 1) == [];
    assert Awaited(Witness.FENCE, trace, at) == Witness.QUIET;
    assert Ticking(at);
  }

  lemma OtherActionsAnswerNothing(w: World, a: Action, runtime: Runtime, now: nat)
    requires !a.ObserveDrain?
    ensures TrueAnswer(w, a, runtime, now)
  {
  }

  lemma DrainAnswersTruly(w: World)
    requires w == World(Witness.BEFORE, [], [])
    ensures TrueAnswer(After(w, Witness.FirstSteps()), ObserveDrain(0, Some(Witness.QUIET)), ReopenedRuntime(),
      Clock(3))
  {
    Witness.ReachesTheDrain(w);
    ReopenedAnswersQuiet();
  }

  function LostRun(): seq<Action> {
    Witness.Steps() + [Witness.LostCommit()]
  }

  lemma LostRunIs()
    ensures |LostRun()| == 6 && LostRun()[..3] == Witness.FirstSteps()
    ensures LostRun()[3] == ObserveDrain(0, Some(Witness.QUIET))
    ensures forall k :: 0 <= k < 6 && k != 3 ==> !LostRun()[k].ObserveDrain?
  {
  }

  lemma LostRunAnswersTruly(w: World, k: nat)
    requires w == World(Witness.BEFORE, [], []) && k < |LostRun()|
    ensures TrueAnswer(After(w, LostRun()[..k]), LostRun()[k], ReopenedRuntime(), Clock(k))
  {
    LostRunIs();
    if k == 3 {
      DrainAnswersTruly(w);
    } else {
      OtherActionsAnswerNothing(After(w, LostRun()[..k]), LostRun()[k], ReopenedRuntime(), Clock(k));
    }
  }

  lemma ReopenedRunIsReal(w: World)
    requires w == World(Witness.BEFORE, [], [])
    ensures RealRun(w, LostRun(), ReopenedRuntime(), Clock)
  {
    ReopenedIsLawful(1, 2, 5);
    forall k | 0 <= k < |LostRun()|
      ensures TrueAnswer(After(w, LostRun()[..k]), LostRun()[k], ReopenedRuntime(), Clock(k))
    {
      LostRunAnswersTruly(w, k);
    }
  }

  lemma LostRunTransfers(w: World)
    requires w == World(Witness.BEFORE, [], [])
    ensures TransfersAt(w, LostRun(), 5)
    ensures CommitterAt(w, LostRun(), 5).normalized == Witness.REQUEST
    ensures CommitterAt(w, LostRun(), 5).phase.fence == Witness.FENCE
  {
    assert LostRun()[..5] == Witness.Steps() && LostRun()[5] == Witness.LostCommit();
    Witness.ReachesTheCommit(w);
    Witness.HearsNothing();
  }

  lemma OneBusyMove(w: World, actions: seq<Action>, m: nat, runtime: Runtime, when: Moments)
    requires CommitsUnder(w, actions, m, runtime, when, false) && !IdleAt(w, actions, m, runtime, when)
    ensures !MovesIdle(false)
  {
  }

  lemma ReopenedMovesBusy()
    ensures !MovesIdle(false)
  {
    var w := World(Witness.BEFORE, [], []);
    ReopenedRunIsReal(w);
    LostRunTransfers(w);
    assert ReopenedRuntime()("a")(Clock(5)).running == {"x"} && ReopenedRuntime()("a")(Clock(5)).epoch == 2;
    assert CommitterAt(w, LostRun(), 5).normalized.fromSessionId == "a";
    OneBusyMove(w, LostRun(), 5, ReopenedRuntime(), Clock);
  }

  /** Over all interleavings with lawful runtimes: nothing of the source runs when its claim moves if
      and only if the epoch is then still that of the fence. */
  lemma MovesIdleIffEpochHeld(held: bool)
    ensures MovesIdle(held) <==> held
  {
    if held {
      forall w: World, actions: seq<Action>, m: nat, runtime: Runtime, when: Moments
        | CommitsUnder(w, actions, m, runtime, when, true)
        ensures IdleAt(w, actions, m, runtime, when)
      {
        HeldMovesIdle(w, actions, m, runtime, when);
      }
    } else {
      ReopenedMovesBusy();
    }
  }
}
