/** Fencing a session and waiting for its executions to drain, against a runtime that keeps
    changing while it is read. */
module HandoffExecution {
  import opened HandoffProtocol
  import opened ResourceHandoff
  import opened Wrappers

  datatype LeaseState = LeaseActive | LeaseEmpty | LeaseUnknown

  /** What looking at one execution gives: an error, a lease without cgroup, or both readings. */
  datatype Sight = Unreadable | NoCgroup(state: LeaseState) | Seen(state: LeaseState, population: LeaseState)

  datatype Occupancy = Occupied | Vacant | Uncertain

  datatype Admission = Admission(closed: bool, epoch: int)

  /** The runtime of one session at one moment. `None` is a read that throws, except for
      `admission`, where it is a session without one. `running` is the truth nobody can read. */
  datatype Moment = Moment(
    epoch: int,
    epochReadable: bool,
    admission: Option<Admission>,
    records: seq<string>,
    recordsReadable: bool,
    bootReadable: bool,
    sights: map<string, Sight>,
    running: set<string>)

  type Trace = nat -> Moment

  function SightOf(m: Moment, id: string): Sight {
    if id in m.sights then m.sights[id] else Unreadable
  }

  /** `observeOccupancy`. */
  function ObserveOccupancy(s: Sight): Occupancy {
    match s
    case Unreadable => Uncertain
    case NoCgroup(_) => Uncertain
    case Seen(state, population) =>
      if state == LeaseActive || population == LeaseActive then Occupied
      else if state == LeaseEmpty && population == LeaseEmpty then Vacant
      else Uncertain
  }

  // ----- Fencing

  /** `closeSessionLaunchAdmission`: refused when the epoch has moved or admission is untracked;
      otherwise admission is closed at the next epoch, in one step. */
  function CloseLaunchAdmission(m: Moment, expectedEpoch: int): Option<Moment> {
    if !SafeInteger(expectedEpoch) || expectedEpoch != m.epoch || m.admission == None then None
    else if !SafeInteger(m.epoch + 1) then None
    else Some(m.(epoch := m.epoch + 1, admission := Some(Admission(true, m.epoch + 1))))
  }

  /** The fence that closing at `epoch` hands out. */
  function FenceAt(n: Normalized, epoch: int): Fence {
    Fence(HANDOFF_SCHEMA_VERSION, n.fromSessionId, n.operationId, epoch, false, "fenced")
  }

  /** Admission was closed: the epoch could be read, the registry agreed, and the write is visible. */
  predicate Closes(first: Moment, second: Moment, delivery: Delivery) {
    first.epochReadable && CloseLaunchAdmission(second, first.epoch).Some? && delivery != LostBeforeWrite
  }

  /** `fence`: read the epoch, then close admission at it. Closing writes the registry, so its answer
      may be lost: then no fence is handed out although admission is closed. */
  method FenceSession(n: Normalized, first: Moment, second: Moment, delivery: Delivery)
    returns (fence: Option<Fence>, after: Moment)
    ensures fence.Some? <==> Closes(first, second, delivery) && delivery == Arrives
    ensures fence.Some? ==> IsFenceFor(fence.value, n) && fence.value.epoch == after.epoch
    ensures Closes(first, second, delivery) ==>
      ClosedNow(after) && after.epoch == second.epoch + 1 && after.running == second.running
    ensures after == second <==> !Closes(first, second, delivery)
    ensures (fence, after) == Fenced(n, first, second, delivery)
  {
    if !first.epochReadable { return None, second; }
    var closed := CloseLaunchAdmission(second, first.epoch);
    if closed == None || delivery == LostBeforeWrite { return None, second; }
    if delivery == LostAfterWrite { return None, closed.value; }
    return Some(FenceAt(n, closed.value.epoch)), closed.value;
  }

  function Fenced(n: Normalized, first: Moment, second: Moment, delivery: Delivery): (Option<Fence>, Moment) {
    if !Closes(first, second, delivery) then (None, second)
    else
      var closed := CloseLaunchAdmission(second, first.epoch).value;
      (if delivery == Arrives then Some(FenceAt(n, closed.epoch)) else None, closed)
  }

  predicate ClosedNow(m: Moment) {
    m.admission == Some(Admission(true, m.epoch))
  }

  // ----- Waiting for quiescence

  function Unknown(f: Fence, ids: seq<string>, epoch: int): Quiescence {
    Quiescence(f.sessionId, f.operationId, epoch, "unknown", [], ids)
  }

  ghost predicate Ticking(at: nat -> nat) {
    forall i, j :: i <= j ==> at(i) <= at(j)
  }

  /** The first `i` executions that were seen as `wanted`, each at its own moment. */
  function SeenAs(ids: seq<string>, trace: Trace, at: nat -> nat, wanted: Occupancy, i: nat): seq<string>
    requires i <= |ids|
  {
    if i == 0 then []
    else
      SeenAs(ids, trace, at, wanted, i - 1)
      + (if ObserveOccupancy(SightOf(trace(at(3 + i)), ids[i - 1])) == wanted then [ids[i - 1]] else [])
  }

  /** The answer of `awaitQuiescence` when the `k`-th reading happens at moment `at(k)`. */
  function Awaited(f: Fence, trace: Trace, at: nat -> nat): Quiescence {
    var ids := trace(at(2)).records;
    var last := trace(at(4 + |ids|));
    if !trace(at(0)).epochReadable then Unknown(f, [], f.epoch)
    else if trace(at(0)).epoch != f.epoch then Unknown(f, [], trace(at(0)).epoch)
    else if trace(at(1)).admission != Some(Admission(true, f.epoch)) then Unknown(f, [], f.epoch)
    else if !trace(at(2)).recordsReadable || ids == [] then Unknown(f, [], f.epoch)
    else if !trace(at(3)).bootReadable || !last.epochReadable then Unknown(f, ids, f.epoch)
    else
      var activeIds, unknownIds := SeenAs(ids, trace, at, Occupied, |ids|), SeenAs(ids, trace, at, Uncertain, |ids|);
      Quiescence(f.sessionId, f.operationId, last.epoch,
                 if |activeIds| > 0 then "active" else if |unknownIds| > 0 then "unknown" else "quiescent",
                 activeIds, unknownIds)
  }

  /** The evidence that makes the answer quiet at the fence's epoch: each reading at its own moment. */
  ghost predicate ProvenQuiet(f: Fence, trace: Trace, at: nat -> nat) {
    var ids := trace(at(2)).records;
    && trace(at(0)).epochReadable && trace(at(0)).epoch == f.epoch
    && trace(at(1)).admission == Some(Admission(true, f.epoch))
    && trace(at(2)).recordsReadable && ids != []
    && trace(at(3)).bootReadable
    && (forall i :: 0 <= i < |ids| ==> ObserveOccupancy(SightOf(trace(at(4 + i)), ids[i])) == Vacant)
    && trace(at(4 + |ids|)).epochReadable && trace(at(4 + |ids|)).epoch == f.epoch
  }

  lemma {:induction false} NoneSeen(ids: seq<string>, trace: Trace, at: nat -> nat, wanted: Occupancy, i: nat)
    requires i <= |ids|
    ensures SeenAs(ids, trace, at, wanted, i) == [] <==>
      forall k :: 0 <= k < i ==> ObserveOccupancy(SightOf(trace(at(4 + k)), ids[k])) != wanted
  {
    if i > 0 { NoneSeen(ids, trace, at, wanted, i - 1); }
  }

  /** The answer is accepted as quiet for the fence exactly when every reading supports it. */
  lemma QuietIffProven(f: Fence, trace: Trace, at: nat -> nat)
    ensures IsQuiescenceFor(f, Awaited(f, trace, at)) && IsQuiet(Awaited(f, trace, at)) <==> ProvenQuiet(f, trace, at)
  {
    var ids := trace(at(2)).records;
    NoneSeen(ids, trace, at, Occupied, |ids|);
    NoneSeen(ids, trace, at, Uncertain, |ids|);
  }

  /** `awaitQuiescence`. */
  method Await(f: Fence, trace: Trace, at: nat -> nat) returns (q: Quiescence)
    ensures q == Awaited(f, trace, at)
    ensures IsQuiescenceFor(f, q) && IsQuiet(q) <==> ProvenQuiet(f, trace, at)
  {
    QuietIffProven(f, trace, at);
    var first := trace(at(0));
    if !first.epochReadable { return Unknown(f, [], f.epoch); }
    if first.epoch != f.epoch { return Unknown(f, [], first.epoch); }
    if trace(at(1)).admission != Some(Admission(true, f.epoch)) { return Unknown(f, [], f.epoch); }
    if !trace(at(2)).recordsReadable { return Unknown(f, [], f.epoch); }
    var ids := trace(at(2)).records;
    if ids == [] { return Unknown(f, [], f.epoch); }
    if !trace(at(3)).bootReadable { return Unknown(f, ids, f.epoch); }
    var activeIds: seq<string> := [];
    var unknownIds: seq<string> := [];
    for i := 0 to |ids|
      invariant activeIds == SeenAs(ids, trace, at, Occupied, i)
      invariant unknownIds == SeenAs(ids, trace, at, Uncertain, i)
    {
      var occupancy := ObserveOccupancy(SightOf(trace(at(4 + i)), ids[i]));
      if occupancy == Occupied { activeIds := activeIds + [ids[i]]; }
      if occupancy == Uncertain { unknownIds := unknownIds + [ids[i]]; }
    }
    var last := trace(at(4 + |ids|));
    if !last.epochReadable { return Unknown(f, ids, f.epoch); }
    q := Quiescence(f.sessionId, f.operationId, last.epoch,
                    if |activeIds| > 0 then "active" else if |unknownIds| > 0 then "unknown" else "quiescent",
                    activeIds, unknownIds);
  }

  // ----- What the evidence proves about the moment the drain ends

  /** How the runtime behaves, whoever else acts on it: epochs never fall; admission closed at an
      epoch stays closed while the epoch lasts, and while it is closed nothing starts; what runs is
      on record; an execution seen empty is empty. */
  ghost predicate Lawful(trace: Trace) {
    && (forall t: nat :: trace(t).epoch <= trace(t + 1).epoch)
    && (forall t: nat :: ClosedNow(trace(t)) && trace(t + 1).epoch == trace(t).epoch ==>
          trace(t + 1).admission == trace(t).admission && trace(t + 1).running <= trace(t).running)
    && (forall t: nat, id :: id in trace(t).running ==> id in trace(t).records)
    && (forall t: nat, id :: ObserveOccupancy(SightOf(trace(t), id)) == Vacant ==> id !in trace(t).running)
  }

  lemma {:induction false} EpochsGrow(trace: Trace, s: nat, t: nat)
    requires Lawful(trace) && s <= t
    ensures trace(s).epoch <= trace(t).epoch
    decreases t - s
  {
    if s < t { EpochsGrow(trace, s, t - 1); }
  }

  /** Between two moments of one epoch, closed at the first, admission stays closed and what runs only shrinks. */
  lemma {:induction false} ClosedStaysClosed(trace: Trace, s: nat, t: nat, epoch: int)
    requires Lawful(trace) && s <= t && trace(s).admission == Some(Admission(true, epoch))
    requires trace(s).epoch == epoch && trace(t).epoch == epoch
    ensures trace(t).admission == Some(Admission(true, epoch)) && trace(t).running <= trace(s).running
    decreases t - s
  {
    if s < t {
      EpochsGrow(trace, s, t - 1);
      EpochsGrow(trace, t - 1, t);
      ClosedStaysClosed(trace, s, t - 1, epoch);
      assert trace((t - 1) + 1) == trace(t);
    }
  }

  /** Executions are looked at one after the other, yet accepted evidence means that at the end of
      the drain nothing of the session runs at all. */
  lemma QuiescenceIsSimultaneous(f: Fence, trace: Trace, at: nat -> nat)
    requires Lawful(trace) && Ticking(at) && ProvenQuiet(f, trace, at)
    ensures trace(at(4 + |trace(at(2)).records|)).running == {}
  {
    var ids := trace(at(2)).records;
    var end := at(4 + |ids|);
    EpochsGrow(trace, at(0), at(1));
    EpochsGrow(trace, at(1), end);
    ClosedStaysClosedFrom(f, trace, at, 2);
    forall i | 0 <= i < |ids| ensures ids[i] !in trace(end).running {
      assert ObserveOccupancy(SightOf(trace(at(4 + i)), ids[i])) == Vacant;
      ClosedStaysClosedFrom(f, trace, at, 4 + i);
    }
    assert forall id :: id in trace(end).running ==> id in ids;
  }

  lemma ClosedStaysClosedFrom(f: Fence, trace: Trace, at: nat -> nat, k: nat)
    requires Lawful(trace) && Ticking(at) && ProvenQuiet(f, trace, at) && 1 <= k <= 4 + |trace(at(2)).records|
    ensures trace(at(4 + |trace(at(2)).records|)).running <= trace(at(k)).running
  {
    var end := at(4 + |trace(at(2)).records|);
    assert at(0) <= at(1) <= at(k) <= end;
    EpochsGrow(trace, at(0), at(1));
    EpochsGrow(trace, at(1), at(k));
    EpochsGrow(trace, at(k), end);
    ClosedStaysClosed(trace, at(1), at(k), f.epoch);
    ClosedStaysClosed(trace, at(k), end, f.epoch);
  }

  /** A quiet answer means that the epoch never moved during the drain, although it is read only at
      both ends. */
  lemma EpochHeldThroughout(f: Fence, trace: Trace, at: nat -> nat, t: nat)
    requires Lawful(trace) && Ticking(at) && ProvenQuiet(f, trace, at)
    requires at(0) <= t <= at(4 + |trace(at(2)).records|)
    ensures trace(t).epoch == f.epoch
  {
    EpochsGrow(trace, at(0), t);
    EpochsGrow(trace, t, at(4 + |trace(at(2)).records|));
  }

  // ----- Up to the commit

  /** The moment of the last reading of the drain. */
  function DrainEnd(trace: Trace, at: nat -> nat): nat {
    at(4 + |trace(at(2)).records|)
  }

  /** While the epoch of the fence lasts, what was quiet at the end of the drain stays quiet. */
  lemma QuietWhileTheEpochLasts(f: Fence, trace: Trace, at: nat -> nat, t: nat)
    requires Lawful(trace) && Ticking(at) && ProvenQuiet(f, trace, at)
    requires DrainEnd(trace, at) <= t && trace(t).epoch == f.epoch
    ensures trace(t).running == {}
  {
    var end := DrainEnd(trace, at);
    QuiescenceIsSimultaneous(f, trace, at);
    assert at(0) <= at(1) <= end;
    EpochsGrow(trace, at(0), at(1));
    EpochsGrow(trace, at(1), end);
    ClosedStaysClosed(trace, at(1), end, f.epoch);
    ClosedStaysClosed(trace, end, t, f.epoch);
  }

  /** Nothing of the session runs at moment `t`, whenever the drain was quiet and the epoch then is `epoch`. */
  ghost predicate SafeAt(f: Fence, at: nat -> nat, t: nat, epoch: int) {
    forall trace: Trace :: QuietThenEpoch(f, trace, at, t, epoch) ==> trace(t).running == {}
  }

  ghost predicate QuietThenEpoch(f: Fence, trace: Trace, at: nat -> nat, t: nat, epoch: int) {
    && Lawful(trace) && ProvenQuiet(f, trace, at)
    && DrainEnd(trace, at) <= t && trace(t).epoch == epoch
  }

  const DRAINED := map["x" := Seen(LeaseEmpty, LeaseEmpty)]
  const RESTARTED := map["x" := Seen(LeaseActive, LeaseActive)]

  /** One execution, drained and then started again once admission was reopened at a later epoch. */
  function Reopened(closed: int, reopened: int, last: nat): Trace {
    (t: nat) =>
      if t <= last then Moment(closed, true, Some(Admission(true, closed)), ["x"], true, true, DRAINED, {})
      else Moment(reopened, true, Some(Admission(false, reopened)), ["x"], true, true, RESTARTED, {"x"})
  }

  lemma ReopenedIsLawful(closed: int, reopened: int, last: nat)
    requires closed < reopened
    ensures Lawful(Reopened(closed, reopened, last))
  {
    var trace := Reopened(closed, reopened, last);
    forall t: nat
      ensures trace(t).epoch <= trace(t + 1).epoch
      ensures trace(t + 1).epoch == trace(t).epoch ==>
        trace(t + 1).admission == trace(t).admission && trace(t + 1).running <= trace(t).running
    {
    }
    forall t: nat, id | ObserveOccupancy(SightOf(trace(t), id)) == Vacant ensures id !in trace(t).running {
      assert id != "x" ==> SightOf(trace(t), id) == Unreadable;
    }
  }

  lemma ReopenedIsQuietFirst(f: Fence, at: nat -> nat, t: nat, epoch: int)
    requires Ticking(at) && at(5) < t && f.epoch < epoch
    ensures QuietThenEpoch(f, Reopened(f.epoch, epoch, at(5)), at, t, epoch)
    ensures Reopened(f.epoch, epoch, at(5))(t).running == {"x"}
  {
    var trace := Reopened(f.epoch, epoch, at(5));
    ReopenedIsLawful(f.epoch, epoch, at(5));
    var quiet := Moment(f.epoch, true, Some(Admission(true, f.epoch)), ["x"], true, true, DRAINED, {});
    forall k: nat | k <= 5 ensures trace(at(k)) == quiet {
      assert at(k) <= at(5);
    }
    assert ObserveOccupancy(SightOf(quiet, "x")) == Vacant;
    assert ProvenQuiet(f, trace, at) && DrainEnd(trace, at) == at(5);
  }

  /** The commit does not look at the fence again. After a quiet drain nothing runs at the moment of
      the commit, whatever else happened, if and only if the epoch is still the fence's: opening
      admission raises the epoch and may start executions without touching a claim. */
  lemma CommitIsSafeIffEpochHeld(f: Fence, at: nat -> nat, t: nat, epoch: int)
    requires Ticking(at) && at(5) < t && f.epoch <= epoch
    ensures SafeAt(f, at, t, epoch) <==> epoch == f.epoch
  {
    if epoch == f.epoch {
      forall trace: Trace | QuietThenEpoch(f, trace, at, t, epoch) ensures trace(t).running == {} {
        QuietWhileTheEpochLasts(f, trace, at, t);
      }
    } else {
      ReopenedIsQuietFirst(f, at, t, epoch);
    }
  }
}
