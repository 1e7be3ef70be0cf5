/** Exactly which answer waiting for a drain gives, by what is read at each moment. */
module DrainAnswers {
  import opened HandoffExecution
  import opened HandoffProtocol
  import opened Selections
  import opened Wrappers

  // ----- One execution

  /** One of the two readings says that it is active. */
  predicate SeenOccupied(m: Moment, id: string) {
    id in m.sights && m.sights[id].Seen?
    && (m.sights[id].state == LeaseActive || m.sights[id].population == LeaseActive)
  }

  /** Both readings say that it is empty. */
  predicate SeenVacant(m: Moment, id: string) {
    id in m.sights && m.sights[id] == Seen(LeaseEmpty, LeaseEmpty)
  }

  lemma SightMeans(m: Moment, id: string)
    ensures ObserveOccupancy(SightOf(m, id)) == Occupied <==> SeenOccupied(m, id)
    ensures ObserveOccupancy(SightOf(m, id)) == Vacant <==> SeenVacant(m, id)
  {
  }

  /** The `i`-th execution, looked at at its own moment. */
  predicate OccupiedAt(trace: Trace, at: nat -> nat, i: nat)
    requires i < |trace(at(2)).records|
  {
    SeenOccupied(trace(at(4 + i)), trace(at(2)).records[i])
  }

  predicate VacantAt(trace: Trace, at: nat -> nat, i: nat)
    requires i < |trace(at(2)).records|
  {
    SeenVacant(trace(at(4 + i)), trace(at(2)).records[i])
  }

  // ----- The readings around them

  /** The epoch is the fence's, admission is closed at it, and there is a record of executions. */
  predicate RecordsKnown(f: Fence, trace: Trace, at: nat -> nat) {
    && trace(at(0)).epochReadable && trace(at(0)).epoch == f.epoch
    && trace(at(1)).admission == Some(Admission(true, f.epoch))
    && trace(at(2)).recordsReadable && trace(at(2)).records != []
  }

  /** The executions could be looked at, and the epoch read once more. */
  predicate LookedAt(f: Fence, trace: Trace, at: nat -> nat) {
    RecordsKnown(f, trace, at) && trace(at(3)).bootReadable && trace(at(4 + |trace(at(2)).records|)).epochReadable
  }

  /** The list holds the executions at these positions. */
  ghost predicate ListedWhere(listed: seq<string>, ids: seq<string>, index: seq<int>, wanted: nat -> bool) {
    PicksOut(index, listed, ids) && forall i: nat :: i < |ids| ==> (i in index <==> wanted(i))
  }

  ghost predicate ListsExactly(listed: seq<string>, ids: seq<string>, wanted: nat -> bool) {
    exists index :: ListedWhere(listed, ids, index, wanted)
  }

  function WhereSeen(ids: seq<string>, trace: Trace, at: nat -> nat, wanted: Occupancy): nat -> bool {
    (i: nat) => i < |ids| && ObserveOccupancy(SightOf(trace(at(4 + i)), ids[i])) == wanted
  }

  /** The positions below `k` where it was seen like this, in order. */
  function Positions(wanted: nat -> bool, k: nat): seq<int> {
    if k == 0 then [] else Positions(wanted, k - 1) + if wanted(k - 1) then [k - 1] else []
  }

  lemma {:induction false} PositionsMean(wanted: nat -> bool, k: nat)
    ensures forall x :: x in Positions(wanted, k) <==> 0 <= x < k && wanted(x)
    ensures forall i, j :: 0 <= i < j < |Positions(wanted, k)| ==> Positions(wanted, k)[i] < Positions(wanted, k)[j]
  {
    if k > 0 {
      var before := Positions(wanted, k - 1);
      PositionsMean(wanted, k - 1);
      assert forall i :: 0 <= i < |before| ==> before[i] in before;
    }
  }

  lemma {:induction false} SeenStandThere(ids: seq<string>, trace: Trace, at: nat -> nat, wanted: Occupancy, k: nat)
    requires k <= |ids|
    ensures var listed, index := SeenAs(ids, trace, at, wanted, k), Positions(WhereSeen(ids, trace, at, wanted), k);
      |listed| == |index| && forall i :: 0 <= i < |index| ==> 0 <= index[i] < k && listed[i] == ids[index[i]]
  {
    if k > 0 {
      SeenStandThere(ids, trace, at, wanted, k - 1);
      assert at(3 + k) == at(4 + (k - 1));
    }
  }

  lemma SeenIsExact(ids: seq<string>, trace: Trace, at: nat -> nat, wanted: Occupancy)
    ensures ListsExactly(SeenAs(ids, trace, at, wanted, |ids|), ids, WhereSeen(ids, trace, at, wanted))
  {
    var index := Positions(WhereSeen(ids, trace, at, wanted), |ids|);
    PositionsMean(WhereSeen(ids, trace, at, wanted), |ids|);
    SeenStandThere(ids, trace, at, wanted, |ids|);
    assert ListedWhere(SeenAs(ids, trace, at, wanted, |ids|), ids, index, WhereSeen(ids, trace, at, wanted));
  }

  // ----- The answer

  /** Where an execution was seen occupied, and where it could not be told. */
  function Occupieds(trace: Trace, at: nat -> nat): nat -> bool {
    (i: nat) => i < |trace(at(2)).records| && OccupiedAt(trace, at, i)
  }

  function Uncertains(trace: Trace, at: nat -> nat): nat -> bool {
    (i: nat) => i < |trace(at(2)).records| && !OccupiedAt(trace, at, i) && !VacantAt(trace, at, i)
  }

  ghost predicate SomeOccupied(trace: Trace, at: nat -> nat) {
    exists i: nat :: i < |trace(at(2)).records| && OccupiedAt(trace, at, i)
  }

  ghost predicate AllVacant(trace: Trace, at: nat -> nat) {
    forall i: nat :: i < |trace(at(2)).records| ==> VacantAt(trace, at, i)
  }

  /** The executions an answer names, and the epoch it is about. */
  ghost predicate NamesThem(q: Quiescence, f: Fence, trace: Trace, at: nat -> nat) {
    var ids := trace(at(2)).records;
    if LookedAt(f, trace, at) then
      && ListsExactly(q.activeExecutionIds, ids, Occupieds(trace, at))
      && ListsExactly(q.unknownExecutionIds, ids, Uncertains(trace, at))
      && q.epoch == trace(at(4 + |ids|)).epoch
    else
      && q.activeExecutionIds == [] && q.unknownExecutionIds == (if RecordsKnown(f, trace, at) then ids else [])
      && q.epoch == if trace(at(0)).epochReadable then trace(at(0)).epoch else f.epoch
  }

  lemma ListsAgree(listed: seq<string>, ids: seq<string>, a: nat -> bool, b: nat -> bool)
    requires ListsExactly(listed, ids, a) && forall i: nat :: i < |ids| ==> a(i) == b(i)
    ensures ListsExactly(listed, ids, b)
  {
    var index :| ListedWhere(listed, ids, index, a);
    assert ListedWhere(listed, ids, index, b);
  }

  lemma NothingListed(listed: seq<string>, ids: seq<string>, wanted: nat -> bool)
    requires ListsExactly(listed, ids, wanted)
    ensures listed == [] <==> forall i: nat :: i < |ids| ==> !wanted(i)
  {
    var index :| ListedWhere(listed, ids, index, wanted);
    if listed != [] {
      var i := index[0];
      assert 0 <= i < |ids| && i in index;
      assert wanted(i);
    }
  }

  lemma OccupiedAreListed(trace: Trace, at: nat -> nat)
    ensures var ids := trace(at(2)).records; var listed := SeenAs(ids, trace, at, Occupied, |ids|);
      ListsExactly(listed, ids, Occupieds(trace, at)) && (listed != [] <==> SomeOccupied(trace, at))
  {
    var ids := trace(at(2)).records;
    SeenIsExact(ids, trace, at, Occupied);
    forall i: nat | i < |ids| ensures WhereSeen(ids, trace, at, Occupied)(i) == Occupieds(trace, at)(i) {
      SightMeans(trace(at(4 + i)), ids[i]);
    }
    ListsAgree(SeenAs(ids, trace, at, Occupied, |ids|), ids, WhereSeen(ids, trace, at, Occupied), Occupieds(trace, at));
    NothingListed(SeenAs(ids, trace, at, Occupied, |ids|), ids, Occupieds(trace, at));
    if i: nat :| i < |ids| && OccupiedAt(trace, at, i) { assert Occupieds(trace, at)(i); }
  }

  lemma UncertainAreListed(trace: Trace, at: nat -> nat)
    ensures var ids := trace(at(2)).records; var listed := SeenAs(ids, trace, at, Uncertain, |ids|);
      ListsExactly(listed, ids, Uncertains(trace, at))
      && (listed == [] && !SomeOccupied(trace, at) <==> AllVacant(trace, at))
  {
    var ids := trace(at(2)).records;
    SeenIsExact(ids, trace, at, Uncertain);
    forall i: nat | i < |ids|
      ensures WhereSeen(ids, trace, at, Uncertain)(i) == Uncertains(trace, at)(i)
      ensures VacantAt(trace, at, i) ==> !OccupiedAt(trace, at, i)
    {
      SightMeans(trace(at(4 + i)), ids[i]);
    }
    ListsAgree(SeenAs(ids, trace, at, Uncertain, |ids|), ids, WhereSeen(ids, trace, at, Uncertain),
               Uncertains(trace, at));
    NothingListed(SeenAs(ids, trace, at, Uncertain, |ids|), ids, Uncertains(trace, at));
  }

  lemma WithALook(f: Fence, trace: Trace, at: nat -> nat)
    requires LookedAt(f, trace, at)
    ensures var ids := trace(at(2)).records;
      var active, uncertain := SeenAs(ids, trace, at, Occupied, |ids|), SeenAs(ids, trace, at, Uncertain, |ids|);
      Awaited(f, trace, at) == Quiescence(f.sessionId, f.operationId, trace(at(4 + |ids|)).epoch,
        if active != [] then "active" else if uncertain != [] then "unknown" else "quiescent", active, uncertain)
  {
  }

  lemma WithoutALook(f: Fence, trace: Trace, at: nat -> nat)
    requires !LookedAt(f, trace, at)
    ensures Awaited(f, trace, at) == Unknown(f, if RecordsKnown(f, trace, at) then trace(at(2)).records else [],
      if trace(at(0)).epochReadable then trace(at(0)).epoch else f.epoch)
  {
  }

  /** The answer is "active" if and only if the executions could be looked at and one was seen occupied,
      "quiescent" if and only if they could be and all were seen empty, and "unknown" otherwise. It names exactly
      the executions seen occupied and those that could not be told; without a look at them, all on record. */
  lemma AnswerMeans(f: Fence, trace: Trace, at: nat -> nat)
    ensures var q := Awaited(f, trace, at);
      && q.sessionId == f.sessionId && q.operationId == f.operationId
      && (q.status == "active" <==> LookedAt(f, trace, at) && SomeOccupied(trace, at))
      && (q.status == "quiescent" <==> LookedAt(f, trace, at) && AllVacant(trace, at))
      && (q.status == "active" || q.status == "quiescent" || q.status == "unknown")
      && NamesThem(q, f, trace, at)
  {
    if LookedAt(f, trace, at) {
      WithALook(f, trace, at);
      OccupiedAreListed(trace, at);
      UncertainAreListed(trace, at);
    } else {
      WithoutALook(f, trace, at);
    }
  }
}
