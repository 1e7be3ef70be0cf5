/** The fixed-size worker pool: a bounded queue in front of worker slots, with failures that
    re-enter the scheduler. */
module RequestPool {
  import opened PoolState
  import opened Wrappers

  class WorkerSlot {
    var ready: bool
    var active: Option<Work>
    var dead: bool

    constructor ()
      ensures State() == SlotState(false, None, false)
    {
      ready, active, dead := false, None, false;
    }

    function State(): SlotState
      reads this
    {
      SlotState(ready, active, dead)
    }
  }

  class ControlRequestPool {
    var slots: seq<WorkerSlot>
    var queue: seq<Work>
    var nextId: nat
    var outstanding: int
    var accepting: bool
    var stoppingWorkers: bool
    var closed: bool
    var drainWaiters: nat
    /** Every promise settlement, in order. */
    ghost var settled: seq<Settlement>
    /** Every post to a worker, in order. */
    ghost var posted: seq<Post>
    /** Every accepted request, in order. */
    ghost var accepted: seq<Work>

    ghost function States(): (ss: seq<SlotState>)
      reads this, slots
      ensures |ss| == |slots| && forall i :: 0 <= i < |ss| ==> ss[i] == slots[i].State()
    {
      seq(|slots|, i requires 0 <= i < |slots| reads this, slots => slots[i].State())
    }

    /** The pool as one value. */
    ghost function View(): Pool
      reads this, slots
    {
      Pool(States(), queue, nextId, outstanding, accepting, stoppingWorkers, closed, drainWaiters, settled, posted,
           accepted)
    }

    ghost predicate DistinctSlots()
      reads this
    {
      forall i, j :: 0 <= i < j < |slots| ==> slots[i] != slots[j]
    }

    ghost predicate Ok()
      reads this, slots
    {
      DistinctSlots() && Valid(View())
    }

    constructor ()
      ensures Ok() && View() == Pool([], [], 1, 0, true, false, false, 0, [], [], [])
    {
      slots, queue, nextId, outstanding := [], [], 1, 0;
      accepting, stoppingWorkers, closed, drainWaiters := true, false, false, 0;
      settled, posted, accepted := [], [], [];
    }

    /** Hand a slot's request to its worker, which may fail at any time. */
    method PostMessage(slot: WorkerSlot, item: Work, ghost i: nat) returns (delivered: bool)
      requires i < |slots| && slots[i] == slot && slot.active == Some(item)
      modifies this`posted
      ensures posted == old(posted) + [Post(i, item)]
    {
      posted := posted + [Post(i, item)];
      delivered := *;
    }

    /** Start terminating the workers. */
    method Finish()
      modifies this`stoppingWorkers
      ensures stoppingWorkers
    {
      stoppingWorkers := true;
    }

    method FinishWork()
      modifies this`outstanding, this`drainWaiters, this`stoppingWorkers
      ensures outstanding == old(outstanding) - 1
      ensures drainWaiters == if outstanding == 0 then 0 else old(drainWaiters)
      ensures stoppingWorkers == (old(stoppingWorkers) || (outstanding == 0 && old(drainWaiters) > 0))
    {
      outstanding := outstanding - 1;
      if outstanding == 0 {
        var waiters := drainWaiters;
        drainWaiters := 0;
        while waiters > 0
          invariant outstanding == old(outstanding) - 1 == 0 && drainWaiters == 0 && 0 <= waiters <= old(drainWaiters)
          invariant stoppingWorkers == (old(stoppingWorkers) || old(drainWaiters) > waiters)
        {
          Finish();
          waiters := waiters - 1;
        }
      }
    }

    /** Settle a request taken in hand and count it off. */
    method SettleAndFinish(w: Work, outcome: Outcome)
      modifies this`outstanding, this`drainWaiters, this`stoppingWorkers, this`settled
      ensures View() == SettleOne(old(View()), w.id, outcome)
    {
      settled := settled + [Settlement(w.id, outcome)];
      FinishWork();
    }

    /** Answer requests taken in hand, in order. */
    method SettleAll(work: seq<Work>)
      requires DistinctSlots() && Balanced(View(), work)
      modifies this`outstanding, this`drainWaiters, this`stoppingWorkers, this`settled
      ensures Balanced(View(), []) && Later(old(View()), View()) && View().slots == old(View()).slots
      ensures |settled| == |old(settled)| + |work|
    {
      var pending := work;
      ghost var before := View();
      while pending != []
        invariant Later(before, View()) && View().slots == before.slots
        invariant Balanced(View(), pending) && |settled| + |pending| == |old(settled)| + |work|
        decreases |pending|
      {
        assert pending == [pending[0]] + pending[1..];
        SettlingKeepsBalance(View(), pending[0], pending[1..], Unavailable);
        SettleAndFinish(pending[0], Unavailable);
        pending := pending[1..];
      }
    }

    /** Answer everything that waits when no worker is left. */
    method FailQueue()
      requires DistinctSlots() && Balanced(View(), []) && nextId >= 1 && AllDead(View().slots)
      modifies this
      ensures Ok() && slots == old(slots) && queue == [] && Later(old(View()), View())
      ensures |settled| == |old(settled)| + |old(queue)|
    {
      ghost var before := View();
      TakingTheQueue(before);
      var pending := queue;
      queue := [];
      assert States() == before.slots;
      assert View() == before.(queue := []);
      SettleAll(pending);
    }

    /** Take the request off a slot, which may be dead from now on. */
    method Clear(slot: WorkerSlot, dead: bool, ghost i: nat)
      requires DistinctSlots() && i < |slots| && slots[i] == slot
      modifies slot`active, slot`dead
      ensures View() == WithSlot(old(View()), i, SlotState(slot.ready, None, dead))
    {
      ghost var before := View();
      slot.dead := dead;
      slot.active := None;
      assert States() == before.slots[i := SlotState(slot.ready, None, dead)];
    }

    /** Mark a slot dead and answer the request it held. */
    method Retire(slot: WorkerSlot, ghost i: nat)
      requires DistinctSlots() && i < |slots| && slots[i] == slot
      modifies this`outstanding, this`drainWaiters, this`stoppingWorkers, this`settled, slot`active, slot`dead
      ensures View() == Retired(old(View()), i)
    {
      var active := slot.active;
      Clear(slot, true, i);
      if active.Some? { SettleAndFinish(active.value, Unavailable); }
    }

    method EveryWorkerIsDead() returns (all: bool)
      ensures all == AllDead(View().slots)
    {
      for i := 0 to |slots|
        invariant forall j :: 0 <= j < i ==> slots[j].dead
      {
        if !slots[i].dead {
          assert !View().slots[i].dead;
          return false;
        }
      }
      return true;
    }

    /** With the last worker gone, so is everything that waits; then schedule again. */
    method AfterRetiring(slot: WorkerSlot)
      requires DistinctSlots() && Balanced(View(), []) && nextId >= 1 && slot in slots
      modifies this, slots
      decreases Live(View().slots), 4
      ensures Ok() && slots == old(slots) && Later(old(View()), View()) && WorkConserving(View())
    {
      ghost var v0 := View();
      var none := EveryWorkerIsDead();
      if none { FailQueue(); }
      ghost var v1 := View();
      Schedule();
      LaterTransitive(v0, v1, View());
    }

    /** Retire a slot and go on. */
    method FailLive(slot: WorkerSlot, ghost i: nat)
      requires Ok() && i < |slots| && slots[i] == slot && !slot.dead
      modifies this, slots
      decreases Live(View().slots), 0
      ensures Ok() && slots == old(slots) && Later(Retired(old(View()), i), View()) && WorkConserving(View())
    {
      RetiringKeepsBalance(View(), i);
      Retire(slot, i);
      AfterRetiring(slot);
    }

    /** A slot whose worker is gone: its request is answered, and with the last worker gone so is
        everything that waits. */
    method FailSlot(slot: WorkerSlot)
      requires Ok() && slot in slots
      modifies this, slots
      decreases Live(View().slots), 1
      ensures Ok() && slots == old(slots) && Later(old(View()), View())
      ensures slot.dead && if old(slot.dead) then View() == old(View()) else WorkConserving(View())
      ensures !old(slot.dead) && old(slot.active).Some? ==>
        old(settled) + [Settlement(old(slot.active).value.id, Unavailable)] <= settled
    {
      if slot.dead { return; }
      ghost var v0 := View();
      ghost var i :| 0 <= i < |slots| && slots[i] == slot;
      FailLive(slot, i);
      RetiredThenLater(v0, i, View());
      assert View().slots[i] == slot.State();
    }

    /** Put the head of the queue on a slot. */
    method Assign(slot: WorkerSlot, ghost i: nat) returns (item: Work)
      requires Ok() && i < |slots| && slots[i] == slot && queue != [] && slot.active == None && !slot.dead
      modifies this`queue, slot`active
      ensures View() == Start(old(View()), i).(posted := old(posted)) && item == old(queue)[0]
      ensures slot.active == Some(item) && DistinctSlots()
    {
      ghost var before := View();
      item := queue[0];
      queue := queue[1..];
      slot.active := Some(item);
      assert States() == before.slots[i := before.slots[i].(active := Some(item))];
    }

    /** Put the head of the queue on an idle slot and post it. */
    method Serve(slot: WorkerSlot, ghost i: nat)
      requires Ok() && i < |slots| && slots[i] == slot && queue != [] && slot.State().Idle() && ServedTo(View(), i)
      modifies this, slots
      decreases Live(View().slots), 2
      ensures Ok() && slots == old(slots) && Later(old(View()), View()) && ServedTo(View(), i + 1)
    {
      ghost var before := View();
      StartIsLater(before, i);
      StartServes(before, i);
      StartingKeepsBalance(before, i);
      var item := Assign(slot, i);
      var delivered := PostMessage(slot, item, i);
      assert View() == Start(before, i) && !View().slots[i].dead;
      if !delivered {
        FailSlot(slot);
        LaterTransitive(before, Start(before, i), View());
      }
    }

    /** Hand waiting requests to idle workers, slot by slot. A post that fails fails its slot,
        which schedules again before this round goes on. */
    method Schedule()
      requires Ok()
      modifies this, slots
      decreases Live(View().slots), 3
      ensures Ok() && slots == old(slots) && Later(old(View()), View())
      ensures WorkConserving(View())
    {
      ghost var v0 := View();
      for i := 0 to |slots|
        invariant Ok() && slots == old(slots) && Later(v0, View()) && ServedTo(View(), i)
      {
        var slot := slots[i];
        ghost var before := View();
        assert before.slots[i] == slot.State();
        if !slot.ready || slot.dead || slot.active.Some? { continue; }
        if queue == [] { return; }
        Serve(slot, i);
        LaterTransitive(v0, before, View());
      }
    }

    // ----- Events

    /** Give the request the next identifier and put it last in the queue. */
    method Enqueue(request: string, catalogPath: string)
      modifies this`nextId, this`outstanding, this`queue, this`accepted
      ensures View() == Accept(old(View()), request, catalogPath)
    {
      ghost var before := View();
      var item := Work(nextId, request, catalogPath);
      nextId := nextId + 1;
      outstanding := outstanding + 1;
      queue := queue + [item];
      accepted := accepted + [item];
      assert States() == before.slots;
    }

    /** `undefined` when the pool refuses; otherwise the identifier of the accepted request. */
    method Dispatch(request: string, catalogPath: string) returns (id: Option<nat>)
      requires Ok()
      modifies this, slots
      ensures Ok() && slots == old(slots)
      ensures id == None <==>
        !old(accepting) || AllDead(old(View()).slots) || old(outstanding) >= WORKER_COUNT + MAX_QUEUED_REQUESTS
      ensures id == None ==> View() == old(View())
      ensures id.Some? ==>
        id.value == old(nextId) && Later(Accept(old(View()), request, catalogPath), View()) && WorkConserving(View())
      ensures accepted == old(accepted) + if id.Some? then [Work(old(nextId), request, catalogPath)] else []
      ensures Onward(old(View()), View())
    {
      if !accepting { return None; }
      var none := EveryWorkerIsDead();
      if none || outstanding >= WORKER_COUNT + MAX_QUEUED_REQUESTS { return None; }
      ghost var before := View();
      AcceptingKeepsBalance(before, request, catalogPath);
      id := Some(nextId);
      Enqueue(request, catalogPath);
      Schedule();
      AcceptedThenLater(before, request, catalogPath, View());
    }

    /** A worker reports that it is ready. Nothing is scheduled here, so work conservation is kept
        exactly when nothing waits for this slot. */
    method OnReady(slot: WorkerSlot)
      requires Ok() && slot in slots
      modifies slot`ready
      ensures Ok() && slot.ready && slot.active == old(slot.active) && slot.dead == old(slot.dead)
      ensures Onward(old(View()), View()) && queue == old(queue)
      ensures old(WorkConserving(View())) ==>
        (WorkConserving(View()) <==> queue == [] || slot.dead || slot.active.Some?)
    {
      ghost var i :| 0 <= i < |slots| && slots[i] == slot;
      ghost var before := View();
      ReadyingASlot(before, i);
      slot.ready := true;
      assert View() == WithSlot(before, i, before.slots[i].(ready := true));
    }

    /** A worker answers. An answer to anything but the slot's own request is ignored. */
    method OnReply(slot: WorkerSlot, requestId: nat, outcome: Outcome)
      requires Ok() && slot in slots
      modifies this, slots
      ensures Ok() && slots == old(slots) && Onward(old(View()), View())
      ensures if old(slot.active).Some? && old(slot.active).value.id == requestId
              then old(settled) + [Settlement(requestId, outcome)] <= settled && nextId == old(nextId)
                && WorkConserving(View())
              else View() == old(View())
    {
      var active := slot.active;
      if active == None || active.value.id != requestId { return; }
      ghost var i :| 0 <= i < |slots| && slots[i] == slot;
      ghost var before := View();
      AnsweringKeepsValid(before, i, outcome);
      TakeAndSettle(slot, active.value, outcome, i);
      Schedule();
      AnsweredThenLater(before, i, outcome, View());
    }

    /** Take the request off its slot and settle it. */
    method TakeAndSettle(slot: WorkerSlot, w: Work, outcome: Outcome, ghost i: nat)
      requires DistinctSlots() && i < |slots| && slots[i] == slot && slot.active == Some(w)
      modifies this`outstanding, this`drainWaiters, this`stoppingWorkers, this`settled, slot`active, slot`dead
      ensures View() == Answered(old(View()), i, outcome)
    {
      Clear(slot, slot.dead, i);
      SettleAndFinish(w, outcome);
    }

    /** A worker reports an error. */
    method Fail(slot: WorkerSlot)
      requires Ok() && slot in slots
      modifies this, slots
      ensures Ok() && slots == old(slots) && slot.dead && Onward(old(View()), View())
      ensures old(WorkConserving(View())) ==> WorkConserving(View())
    {
      FailSlot(slot);
    }

    /** A worker exits: a failure, unless the pool is stopping its workers or knows already. */
    method OnExit(slot: WorkerSlot)
      requires Ok() && slot in slots
      modifies this, slots
      ensures Ok() && slots == old(slots) && slot.dead && Onward(old(View()), View()) && nextId == old(nextId)
      ensures OnlyUnavailableSince(old(settled), settled)
      ensures old(stoppingWorkers) ==> settled == old(settled)
      ensures old(WorkConserving(View())) ==> WorkConserving(View())
    {
      if !stoppingWorkers && !slot.dead {
        FailSlot(slot);
      } else if !slot.dead {
        ghost var i :| 0 <= i < |slots| && slots[i] == slot;
        ghost var before := View();
        StoppedSlotIsFree(before, i);
        slot.dead := true;
        assert View() == WithSlot(before, i, before.slots[i].(dead := true));
      }
    }

    /** Stop accepting; terminate the workers now if nothing is outstanding, later otherwise. */
    method Close()
      requires Ok()
      modifies this`accepting, this`closed, this`stoppingWorkers, this`drainWaiters
      ensures Ok() && closed && !accepting && (stoppingWorkers <==> outstanding == 0) && Onward(old(View()), View())
      ensures old(closed) ==> View() == old(View())
      ensures old(WorkConserving(View())) ==> WorkConserving(View())
    {
      if closed { return; }
      ghost var before := View();
      accepting := false;
      closed := true;
      if outstanding == 0 {
        Finish();
      } else {
        drainWaiters := drainWaiters + 1;
      }
      assert States() == before.slots;
      ClosingKeepsBalance(before);
    }

    /** One more worker; creating it may fail. */
    method AddWorker() returns (created: bool)
      requires Ok()
      modifies this`slots
      ensures Ok() && if created then
          |slots| == |old(slots)| + 1 && slots[..|old(slots)|] == old(slots) && fresh(slots[|old(slots)|])
          && View() == old(View()).(slots := old(View()).slots + [SlotState(false, None, false)])
        else View() == old(View()) && slots == old(slots)
    {
      created := *;
      if !created { return; }
      ghost var before := View();
      AddingASlot(before);
      var slot := new WorkerSlot();
      slots := slots + [slot];
      assert States() == before.slots + [SlotState(false, None, false)];
      assert !View().slots[|before.slots|].dead;
    }

    /** Create the workers; a worker that cannot be created closes the pool. */
    method StartWorkers() returns (running: bool)
      requires Ok() && slots == []
      modifies this
      ensures Ok() && Onward(old(View()), View()) && fresh(slots)
      ensures if running then |slots| == WORKER_COUNT && closed == old(closed) else closed
      ensures queue == old(queue) && settled == old(settled)
    {
      running := true;
      for index := 0 to WORKER_COUNT
        invariant Ok() && |slots| == index && fresh(slots) && View() == old(View()).(slots := View().slots)
      {
        var created := AddWorker();
        if !created {
          Close();
          return false;
        }
      }
    }
  }

  datatype Event =
    | Dispatched(request: string, catalogPath: string)
    | WorkerReady(index: nat)
    | Replies(index: nat, requestId: nat, outcome: Outcome)
    | Fails(index: nat)
    | Exits(index: nat)
    | Closes

  method Handle(pool: ControlRequestPool, event: Event)
    requires pool.Ok()
    modifies pool, pool.slots
    ensures pool.Ok() && pool.slots == old(pool.slots) && Onward(old(pool.View()), pool.View())
    ensures old(WorkConserving(pool.View())) && !event.WorkerReady? ==> WorkConserving(pool.View())
  {
    match event {
      case Dispatched(request, catalogPath) => var _ := pool.Dispatch(request, catalogPath);
      case Closes => pool.Close();
      case WorkerReady(i) => if i < |pool.slots| { pool.OnReady(pool.slots[i]); }
      case Replies(i, id, outcome) => if i < |pool.slots| { pool.OnReply(pool.slots[i], id, outcome); }
      case Fails(i) => if i < |pool.slots| { pool.Fail(pool.slots[i]); }
      case Exits(i) => if i < |pool.slots| { pool.OnExit(pool.slots[i]); }
    }
  }

  /** Any events in any order, posts failing at any of them: the pool keeps its books, everything
      settled or posted stays so, and once no worker has to become ready any more, none is ever
      left idle while a request waits. */
  method Run(pool: ControlRequestPool, events: seq<Event>)
    requires pool.Ok()
    modifies pool, pool.slots
    ensures pool.Ok() && Onward(old(pool.View()), pool.View())
    ensures old(WorkConserving(pool.View())) && (forall k :: 0 <= k < |events| ==> !events[k].WorkerReady?) ==>
      WorkConserving(pool.View())
  {
    ghost var v0 := pool.View();
    for k := 0 to |events|
      invariant pool.Ok() && pool.slots == old(pool.slots) && Onward(v0, pool.View())
      invariant WorkConserving(v0) && (forall j :: 0 <= j < k ==> !events[j].WorkerReady?) ==>
        WorkConserving(pool.View())
    {
      ghost var before := pool.View();
      Handle(pool, events[k]);
      OnwardTransitive(v0, before, pool.View());
    }
  }
}
