/** The request pool as one value: where requests are, how often each was settled, and the
    elementary moves every event is made of. */
module PoolState {
  import opened Wrappers

  const WORKER_COUNT := 2
  const MAX_QUEUED_REQUESTS := 4

  datatype Work = Work(id: nat, request: string, catalogPath: string)

  /** A request handed to the worker of a slot. */
  datatype Post = Post(slot: nat, work: Work)

  datatype Outcome = Replied(reply: string) | Rejected(message: string) | Unavailable

  datatype Settlement = Settlement(id: nat, outcome: Outcome)

  datatype SlotState = SlotState(ready: bool, active: Option<Work>, dead: bool) {
    predicate Idle() {
      ready && !dead && active == None
    }
  }

  datatype Pool = Pool(
    slots: seq<SlotState>,
    queue: seq<Work>,
    nextId: nat,
    outstanding: int,
    accepting: bool,
    stoppingWorkers: bool,
    closed: bool,
    drainWaiters: nat,
    settled: seq<Settlement>,
    posted: seq<Post>,
    accepted: seq<Work>)

  // ----- Counting where a request is

  function InQueue(q: seq<Work>, id: nat): nat {
    if q == [] then 0 else (if q[0].id == id then 1 else 0) + InQueue(q[1..], id)
  }

  function OnSlot(s: SlotState, id: nat): nat {
    if s.active.Some? && s.active.value.id == id then 1 else 0
  }

  function OnSlots(ss: seq<SlotState>, id: nat): nat {
    if ss == [] then 0 else OnSlot(ss[0], id) + OnSlots(ss[1..], id)
  }

  function TimesSettled(log: seq<Settlement>, id: nat): nat {
    if log == [] then 0
    else TimesSettled(log[..|log| - 1], id) + (if log[|log| - 1].id == id then 1 else 0)
  }

  function Occupied(ss: seq<SlotState>): nat {
    if ss == [] then 0 else (if ss[0].active.Some? then 1 else 0) + Occupied(ss[1..])
  }

  function Live(ss: seq<SlotState>): nat {
    if ss == [] then 0 else (if ss[0].dead then 0 else 1) + Live(ss[1..])
  }

  lemma {:induction false} QueueAppend(q: seq<Work>, w: Work, id: nat)
    ensures InQueue(q + [w], id) == InQueue(q, id) + (if w.id == id then 1 else 0)
  {
    if q == [] {
      assert q + [w] == [w];
    } else {
      assert (q + [w])[1..] == q[1..] + [w];
      QueueAppend(q[1..], w, id);
    }
  }

  /** Changing one slot changes the counts by that slot alone. */
  lemma {:induction false} SlotUpdate(ss: seq<SlotState>, i: nat, t: SlotState, id: nat)
    requires i < |ss|
    ensures OnSlots(ss[i := t], id) == OnSlots(ss, id) + OnSlot(t, id) - OnSlot(ss[i], id)
    ensures Occupied(ss[i := t])
      == Occupied(ss) + (if t.active.Some? then 1 else 0) - (if ss[i].active.Some? then 1 else 0)
    ensures Live(ss[i := t]) == Live(ss) + (if t.dead then 0 else 1) - (if ss[i].dead then 0 else 1)
  {
    if i > 0 {
      SlotUpdate(ss[1..], i - 1, t, id);
      assert ss[i := t][1..] == ss[1..][i - 1 := t];
    } else {
      assert ss[i := t][1..] == ss[1..];
    }
  }

  lemma {:induction false} SlotAppend(ss: seq<SlotState>, t: SlotState, id: nat)
    ensures OnSlots(ss + [t], id) == OnSlots(ss, id) + OnSlot(t, id)
    ensures Occupied(ss + [t]) == Occupied(ss) + (if t.active.Some? then 1 else 0)
  {
    if ss == [] {
      assert ss + [t] == [t] && [t][1..] == [];
    } else {
      assert (ss + [t])[1..] == ss[1..] + [t];
      SlotAppend(ss[1..], t, id);
    }
  }

  // ----- What every state keeps

  predicate AllDead(ss: seq<SlotState>) {
    forall i :: 0 <= i < |ss| ==> ss[i].dead
  }

  predicate DeadHoldNothing(ss: seq<SlotState>) {
    forall i :: 0 <= i < |ss| && ss[i].dead ==> ss[i].active == None
  }

  /** No live, ready, unoccupied slot while something waits. */
  predicate WorkConserving(p: Pool) {
    p.queue == [] || forall i :: 0 <= i < |p.slots| ==> !p.slots[i].Idle()
  }

  /** The same for the first `k` slots. */
  predicate ServedTo(p: Pool, k: nat) {
    k <= |p.slots| && (p.queue == [] || forall i :: 0 <= i < k ==> !p.slots[i].Idle())
  }

  /** Requests posted so far, then the waiting ones, form one ascending line below `nextId`. */
  predicate InLine(posted: seq<Post>, queue: seq<Work>, nextId: nat) {
    && (forall i, j :: 0 <= i < j < |posted| ==> posted[i].work.id < posted[j].work.id)
    && (forall i, j :: 0 <= i < j < |queue| ==> queue[i].id < queue[j].id)
    && (forall i, j :: 0 <= i < |posted| && 0 <= j < |queue| ==> posted[i].work.id < queue[j].id)
    && (forall i :: 0 <= i < |posted| ==> posted[i].work.id < nextId)
    && (forall j :: 0 <= j < |queue| ==> queue[j].id < nextId)
  }

  /** The request is the one that was accepted under its identifier. */
  predicate AsAccepted(w: Work, accepted: seq<Work>) {
    1 <= w.id <= |accepted| && accepted[w.id - 1] == w
  }

  predicate AllAsAccepted(work: seq<Work>, accepted: seq<Work>) {
    forall k :: 0 <= k < |work| ==> AsAccepted(work[k], accepted)
  }

  predicate PostsAsAccepted(posted: seq<Post>, accepted: seq<Work>) {
    forall k :: 0 <= k < |posted| ==> AsAccepted(posted[k].work, accepted)
  }

  /** What is on a slot was posted to that slot, just as it was accepted. */
  predicate SlotsAsPosted(ss: seq<SlotState>, posted: seq<Post>, accepted: seq<Work>) {
    forall i :: 0 <= i < |ss| && ss[i].active.Some? ==>
      Post(i, ss[i].active.value) in posted && AsAccepted(ss[i].active.value, accepted)
  }

  /** Every request, wherever it is and wherever it was posted, is the one that was accepted. */
  predicate Traced(p: Pool, pending: seq<Work>) {
    && |p.accepted| == p.nextId - 1
    && AllAsAccepted(p.accepted, p.accepted) && AllAsAccepted(p.queue, p.accepted) && AllAsAccepted(pending, p.accepted)
    && PostsAsAccepted(p.posted, p.accepted) && SlotsAsPosted(p.slots, p.posted, p.accepted)
  }

  /** How often a request is waiting, on a slot, in hand, or settled, all told. */
  function Places(p: Pool, pending: seq<Work>, id: nat): nat {
    InQueue(p.queue, id) + OnSlots(p.slots, id) + InQueue(pending, id) + TimesSettled(p.settled, id)
  }

  /** Conservation, with `pending` taken off the queue or a slot but not settled yet: every
      identifier handed out is in exactly one place, no other is anywhere. */
  ghost predicate Balanced(p: Pool, pending: seq<Work>) {
    && p.outstanding == |p.queue| + Occupied(p.slots) + |pending|
    && p.outstanding <= WORKER_COUNT + MAX_QUEUED_REQUESTS
    && (forall id: nat :: Places(p, pending, id) == if 1 <= id < p.nextId then 1 else 0)
    && InLine(p.posted, p.queue, p.nextId)
    && Traced(p, pending)
    && DeadHoldNothing(p.slots)
    && (p.closed <==> !p.accepting)
    && (p.stoppingWorkers <==> p.closed && p.outstanding == 0)
    && (p.drainWaiters > 0 <==> p.closed && p.outstanding > 0)
  }

  /** What holds between events. */
  ghost predicate Valid(p: Pool) {
    p.nextId >= 1 && Balanced(p, []) && (AllDead(p.slots) ==> p.queue == [])
  }

  // ----- The elementary moves

  /** A request settled and counted off; the last one releases the waiting close. */
  function SettleOne(p: Pool, id: nat, outcome: Outcome): Pool {
    var left := p.outstanding - 1;
    p.(settled := p.settled + [Settlement(id, outcome)],
       outstanding := left,
       drainWaiters := if left == 0 then 0 else p.drainWaiters,
       stoppingWorkers := p.stoppingWorkers || (left == 0 && p.drainWaiters > 0))
  }

  lemma SettlingKeepsBalance(p: Pool, w: Work, pending: seq<Work>, outcome: Outcome)
    requires Balanced(p, [w] + pending)
    ensures Balanced(SettleOne(p, w.id, outcome), pending)
  {
    var q := SettleOne(p, w.id, outcome);
    assert q.settled[..|p.settled|] == p.settled && ([w] + pending)[1..] == pending;
    forall id: nat ensures Places(q, pending, id) == Places(p, [w] + pending, id) {
    }
  }

  lemma TakingTheQueue(p: Pool)
    requires Balanced(p, [])
    ensures Balanced(p.(queue := []), p.queue)
  {
    var q := p.(queue := []);
    forall id: nat ensures Places(q, p.queue, id) == Places(p, [], id) {
    }
  }

  function WithSlot(p: Pool, i: nat, s: SlotState): Pool
    requires i < |p.slots|
  {
    p.(slots := p.slots[i := s])
  }

  function Pending(s: SlotState): seq<Work> {
    if s.active.Some? then [s.active.value] else []
  }

  /** Taking a request off its slot, whatever else happens to the slot. */
  lemma ClearingASlot(p: Pool, i: nat, t: SlotState)
    requires Balanced(p, []) && i < |p.slots| && t.active == None
    ensures Balanced(WithSlot(p, i, t), Pending(p.slots[i]))
    ensures Live(p.slots[i := t]) == Live(p.slots) + (if t.dead then 0 else 1) - (if p.slots[i].dead then 0 else 1)
  {
    var q, pending := WithSlot(p, i, t), Pending(p.slots[i]);
    SlotUpdate(p.slots, i, t, 0);
    forall id: nat ensures Places(q, pending, id) == Places(p, [], id) {
      SlotUpdate(p.slots, i, t, id);
      assert p.slots[i].active.Some? ==> pending[1..] == [];
    }
  }

  /** Moving the head of the queue onto a slot and posting it there. */
  function Start(p: Pool, i: nat): Pool
    requires i < |p.slots| && p.queue != []
  {
    p.(slots := p.slots[i := p.slots[i].(active := Some(p.queue[0]))],
       queue := p.queue[1..],
       posted := p.posted + [Post(i, p.queue[0])])
  }

  lemma StartInLine(posted: seq<Post>, queue: seq<Work>, nextId: nat, i: nat)
    requires InLine(posted, queue, nextId) && queue != []
    ensures InLine(posted + [Post(i, queue[0])], queue[1..], nextId)
  {
  }

  lemma StartingKeepsBalance(p: Pool, i: nat)
    requires Balanced(p, []) && i < |p.slots| && p.queue != [] && p.slots[i].active == None && !p.slots[i].dead
    ensures Balanced(Start(p, i), []) && Live(Start(p, i).slots) == Live(p.slots)
  {
    var q, t := Start(p, i), p.slots[i].(active := Some(p.queue[0]));
    SlotUpdate(p.slots, i, t, 0);
    StartInLine(p.posted, p.queue, p.nextId, i);
    forall id: nat ensures Places(q, [], id) == Places(p, [], id) {
      SlotUpdate(p.slots, i, t, id);
    }
  }

  function Accept(p: Pool, request: string, catalogPath: string): Pool {
    var w := Work(p.nextId, request, catalogPath);
    p.(queue := p.queue + [w], accepted := p.accepted + [w], nextId := p.nextId + 1, outstanding := p.outstanding + 1)
  }

  lemma AcceptInLine(posted: seq<Post>, queue: seq<Work>, w: Work)
    requires InLine(posted, queue, w.id)
    ensures InLine(posted, queue + [w], w.id + 1)
  {
  }

  lemma AcceptingKeepsBalance(p: Pool, request: string, catalogPath: string)
    requires Balanced(p, []) && p.nextId >= 1 && p.accepting && p.outstanding < WORKER_COUNT + MAX_QUEUED_REQUESTS
    ensures Balanced(Accept(p, request, catalogPath), [])
  {
    var q, w := Accept(p, request, catalogPath), Work(p.nextId, request, catalogPath);
    AcceptInLine(p.posted, p.queue, w);
    forall id: nat ensures Places(q, [], id) == if 1 <= id < q.nextId then 1 else 0 {
      QueueAppend(p.queue, w, id);
      assert Places(p, [], id) == if 1 <= id < p.nextId then 1 else 0;
    }
  }

  lemma AddingASlot(p: Pool)
    requires Balanced(p, [])
    ensures Balanced(p.(slots := p.slots + [SlotState(false, None, false)]), [])
  {
    var t := SlotState(false, None, false);
    var q := p.(slots := p.slots + [t]);
    SlotAppend(p.slots, t, 0);
    forall id: nat ensures Places(q, [], id) == Places(p, [], id) {
      SlotAppend(p.slots, t, id);
    }
  }

  /** The log grew, and everything added reports an unavailable worker. */
  predicate OnlyUnavailableSince(before: seq<Settlement>, now: seq<Settlement>) {
    before <= now && forall k :: |before| <= k < |now| ==> now[k].outcome == Unavailable
  }

  /** What scheduling and failing may change: no request is accepted or refused, dead workers stay
      dead, posts and settlements are only added, and all added settlements report unavailability. */
  predicate Later(p: Pool, q: Pool) {
    && q.nextId == p.nextId && q.accepted == p.accepted && q.accepting == p.accepting
    && |q.slots| == |p.slots|
    && (forall i :: 0 <= i < |p.slots| ==>
      q.slots[i].ready == p.slots[i].ready && (p.slots[i].dead ==> q.slots[i].dead))
    && OnlyUnavailableSince(p.settled, q.settled) && p.posted <= q.posted
    && Live(q.slots) <= Live(p.slots)
  }

  lemma LaterTransitive(p: Pool, q: Pool, r: Pool)
    requires Later(p, q) && Later(q, r)
    ensures Later(p, r)
  {
  }

  lemma StartIsLater(p: Pool, i: nat)
    requires Balanced(p, []) && i < |p.slots| && p.queue != [] && p.slots[i].active == None && !p.slots[i].dead
    ensures Later(p, Start(p, i))
  {
    StartingKeepsBalance(p, i);
  }

  /** A slot declared dead and the request it held answered. */
  function Retired(p: Pool, i: nat): Pool
    requires i < |p.slots|
  {
    var q := WithSlot(p, i, SlotState(p.slots[i].ready, None, true));
    if p.slots[i].active.Some? then SettleOne(q, p.slots[i].active.value.id, Unavailable) else q
  }

  lemma RetiringKeepsBalance(p: Pool, i: nat)
    requires Balanced(p, []) && i < |p.slots| && !p.slots[i].dead
    ensures Balanced(Retired(p, i), []) && Later(p, Retired(p, i)) && Live(Retired(p, i).slots) == Live(p.slots) - 1
  {
    var t := SlotState(p.slots[i].ready, None, true);
    ClearingASlot(p, i, t);
    if p.slots[i].active.Some? {
      var w := p.slots[i].active.value;
      assert [w] + [] == [w];
      SettlingKeepsBalance(WithSlot(p, i, t), w, [], Unavailable);
    }
  }

  lemma StartServes(p: Pool, i: nat)
    requires i < |p.slots| && p.queue != [] && ServedTo(p, i)
    ensures ServedTo(Start(p, i), i + 1)
  {
  }

  /** A slot freed by its answer, and the answer delivered. */
  function Answered(p: Pool, i: nat, outcome: Outcome): Pool
    requires i < |p.slots| && p.slots[i].active.Some?
  {
    SettleOne(WithSlot(p, i, p.slots[i].(active := None)), p.slots[i].active.value.id, outcome)
  }

  lemma AnsweringKeepsValid(p: Pool, i: nat, outcome: Outcome)
    requires Valid(p) && i < |p.slots| && p.slots[i].active.Some?
    ensures Valid(Answered(p, i, outcome))
  {
    var w, t := p.slots[i].active.value, p.slots[i].(active := None);
    ClearingASlot(p, i, t);
    assert [w] + [] == [w];
    SettlingKeepsBalance(WithSlot(p, i, t), w, [], outcome);
    assert !p.slots[i].dead && !Answered(p, i, outcome).slots[i].dead;
  }

  lemma ReadyingASlot(p: Pool, i: nat)
    requires Valid(p) && i < |p.slots|
    ensures var t := p.slots[i].(ready := true);
      Valid(WithSlot(p, i, t))
        && (WorkConserving(p) ==> (WorkConserving(WithSlot(p, i, t)) <==> p.queue == [] || !t.Idle()))
  {
    var t := p.slots[i].(ready := true);
    var q := WithSlot(p, i, t);
    SlotUpdate(p.slots, i, t, 0);
    DeadAfterReady(p, i, t);
    forall id: nat ensures Places(q, [], id) == Places(p, [], id) {
      SlotUpdate(p.slots, i, t, id);
    }
    if p.queue != [] && t.Idle() { assert q.slots[i].Idle(); }
  }

  lemma DeadAfterReady(p: Pool, i: nat, t: SlotState)
    requires Valid(p) && i < |p.slots| && t == p.slots[i].(ready := true)
    ensures DeadHoldNothing(p.slots[i := t]) && (AllDead(p.slots[i := t]) ==> p.queue == [])
  {
    if AllDead(p.slots[i := t]) {
      forall k | 0 <= k < |p.slots| ensures p.slots[k].dead {
        assert p.slots[i := t][k].dead;
      }
    }
  }

  lemma StoppedSlotIsFree(p: Pool, i: nat)
    requires Valid(p) && p.stoppingWorkers && i < |p.slots|
    ensures p.slots[i].active == None && Valid(WithSlot(p, i, p.slots[i].(dead := true)))
  {
    var t := p.slots[i].(dead := true);
    OneOccupied(p.slots, i);
    SlotUpdate(p.slots, i, t, 0);
    forall id: nat ensures Places(WithSlot(p, i, t), [], id) == Places(p, [], id) {
      SlotUpdate(p.slots, i, t, id);
    }
  }

  lemma {:induction false} OneOccupied(ss: seq<SlotState>, i: nat)
    requires i < |ss|
    ensures ss[i].active.Some? ==> Occupied(ss) > 0
  {
    if i > 0 { OneOccupied(ss[1..], i - 1); }
  }

  lemma ClosingKeepsBalance(p: Pool)
    requires Valid(p) && !p.closed
    ensures var stop := p.outstanding == 0;
      Valid(p.(accepting := false, closed := true, stoppingWorkers := stop,
               drainWaiters := if stop then p.drainWaiters else p.drainWaiters + 1))
  {
    var stop := p.outstanding == 0;
    var q := p.(accepting := false, closed := true, stoppingWorkers := stop,
                drainWaiters := if stop then p.drainWaiters else p.drainWaiters + 1);
    forall id: nat ensures Places(q, [], id) == Places(p, [], id) {
    }
  }

  // ----- Whole runs

  /** What any event may change: acceptance ends for good, settlements, posts and accepted requests are only added. */
  predicate Onward(p: Pool, q: Pool) {
    && p.settled <= q.settled && p.posted <= q.posted && p.accepted <= q.accepted && p.nextId <= q.nextId
    && (p.closed ==> q.closed && q.nextId == p.nextId)
  }

  lemma OnwardTransitive(p: Pool, q: Pool, r: Pool)
    requires Onward(p, q) && Onward(q, r)
    ensures Onward(p, r)
  {
  }

  lemma LaterIsOnward(p: Pool, q: Pool)
    requires Valid(p) && Valid(q) && Later(p, q)
    ensures Onward(p, q)
  {
  }

  /** Accepting, and whatever scheduling does then. */
  lemma AcceptedThenLater(p: Pool, request: string, catalogPath: string, q: Pool)
    requires Valid(p) && Valid(q) && !p.closed && Later(Accept(p, request, catalogPath), q)
    ensures Onward(p, q) && q.accepted == p.accepted + [Work(p.nextId, request, catalogPath)]
  {
  }

  /** Answering, and whatever scheduling does then. */
  lemma AnsweredThenLater(p: Pool, i: nat, outcome: Outcome, q: Pool)
    requires Valid(p) && Valid(q) && i < |p.slots| && p.slots[i].active.Some? && Later(Answered(p, i, outcome), q)
    ensures Onward(p, q) && q.nextId == p.nextId
    ensures p.settled + [Settlement(p.slots[i].active.value.id, outcome)] <= q.settled
  {
  }

  /** Failing a slot, and whatever follows. */
  lemma RetiredThenLater(p: Pool, i: nat, q: Pool)
    requires Valid(p) && i < |p.slots| && !p.slots[i].dead && Later(Retired(p, i), q)
    ensures Later(p, q) && q.slots[i].dead
    ensures p.slots[i].active.Some? ==>
      p.settled + [Settlement(p.slots[i].active.value.id, Unavailable)] <= q.settled
  {
    RetiringKeepsBalance(p, i);
    LaterTransitive(p, Retired(p, i), q);
    assert Retired(p, i).slots[i].dead;
  }

  lemma {:induction false} NothingOccupied(ss: seq<SlotState>, id: nat)
    requires Occupied(ss) == 0
    ensures OnSlots(ss, id) == 0
  {
    if ss != [] { NothingOccupied(ss[1..], id); }
  }

  lemma {:induction false} SettledAtMostOnce(p: Pool, id: nat)
    requires Valid(p)
    ensures TimesSettled(p.settled, id) <= if 1 <= id < p.nextId then 1 else 0
  {
    assert Places(p, [], id) == if 1 <= id < p.nextId then 1 else 0;
  }

  /** Workers are being terminated only when the pool is closed and every request ever accepted
      has been settled, exactly once. */
  lemma StoppingMeansAllSettled(p: Pool, id: nat)
    requires Valid(p) && p.stoppingWorkers && 1 <= id < p.nextId
    ensures p.closed && p.queue == [] && TimesSettled(p.settled, id) == 1
  {
    NothingOccupied(p.slots, id);
    assert Places(p, [], id) == 1;
  }

  /** A request that was posted is not waiting any more: it is on a slot or settled. */
  lemma StartedIsNotWaiting(p: Pool, k: nat)
    requires Valid(p) && k < |p.posted|
    ensures forall j :: 0 <= j < |p.queue| ==> p.queue[j].id != p.posted[k].work.id
  {
  }

  /** Whatever a worker was ever handed is a request as it was accepted, and no request is handed out twice. */
  lemma PostsAreRequests(p: Pool, k: nat)
    requires Valid(p) && k < |p.posted|
    ensures AsAccepted(p.posted[k].work, p.accepted)
    ensures forall j :: 0 <= j < |p.posted| && j != k ==> p.posted[j].work.id != p.posted[k].work.id
  {
    forall j | 0 <= j < |p.posted| && j != k ensures p.posted[j].work.id != p.posted[k].work.id {
      assert j < k || k < j;
    }
  }

  /** A worker's present request was handed to that worker. */
  lemma ActiveWasPosted(p: Pool, i: nat)
    requires Valid(p) && i < |p.slots| && p.slots[i].active.Some?
    ensures exists k :: 0 <= k < |p.posted| && p.posted[k] == Post(i, p.accepted[p.slots[i].active.value.id - 1])
  {
  }
}
