/** Every sequence of operations on the task queues, with its history. */
module TaskQueueRuns {
  import opened TaskQueueCore

  /** What happened to the tasks of one queue. */
  datatype History = History(registered: set<DelayedTask>, returned: seq<DelayedTask>, disposed: set<DelayedTask>)

  /** A queue with its history; `lateWake` records a wakeable set over pending tasks and not woken since. */
  datatype Queue = Queue(entry: Entry, history: History, lateWake: bool)

  datatype State = State(unmerged: Id, queues: map<Id, Queue>, idCounter: nat, registrations: nat)

  function Init(unmerged: Id): (r: State) {
    State(unmerged, map[], 0, 0)
  }

  /** One locked operation; where the priority queue has a choice, the label says what was on top. */
  datatype Op =
    | Create
    | SetWakeable(id: Id)
    | AddObserver(id: Id, key: int, callback: Task)
    | Register(id: Id, task: Task, target: Time, top: DelayedTask)
    | GetNext(id: Id, from: Time, top: DelayedTask)
    | DisposeTasks(id: Id)
    | Dispose(id: Id)

  predicate HasPending(s: State, id: Id)
    requires id in s.queues
  {
    id != s.unmerged && s.queues[id].entry.pending != {}
  }

  function NewTask(s: State, op: Op): (r: DelayedTask)
    requires op.Register?
  {
    DelayedTask(s.registrations, op.task, op.target)
  }

  predicate Enabled(s: State, op: Op) {
    match op
    case Create => true
    case SetWakeable(id) => id in s.queues && !s.queues[id].entry.hasWakeable
    case AddObserver(id, _, callback) => id in s.queues && callback != Null
    case Register(id, _, _, top) =>
      id in s.queues && (id != s.unmerged ==> IsTop(s.queues[id].entry.pending + {NewTask(s, op)}, top))
    case GetNext(id, _, top) =>
      id in s.queues && (HasPending(s, id) ==> IsTop(s.queues[id].entry.pending, top))
    case DisposeTasks(id) => id in s.queues
    case Dispose(id) => id in s.queues
  }

  function ApplyRegister(s: State, q: Queue, op: Op): (r: Queue)
    requires op.Register?
  {
    var t := NewTask(s, op);
    Queue(if op.id != s.unmerged then Registered(q.entry, t, op.top)
          else q.entry.(pending := q.entry.pending + {t}),
          q.history.(registered := q.history.registered + {t}),
          q.lateWake && op.id == s.unmerged)
  }

  function ApplyGetNext(q: Queue, op: Op): (r: Queue)
    requires op.GetNext?
  {
    Queue(Asked(q.entry, op.top, op.from),
          if op.top.target > op.from then q.history
          else q.history.(returned := q.history.returned + [op.top]),
          false)
  }

  function ApplyDisposeTasks(q: Queue): (r: Queue) {
    Queue(q.entry.(pending := {}), q.history.(disposed := q.history.disposed + q.entry.pending), false)
  }

  /** The operation's effect on the queue it names. */
  function ApplyQueue(s: State, op: Op): (r: Queue)
    requires Enabled(s, op) && !op.Create? && !op.Dispose?
  {
    var q := s.queues[op.id];
    match op
    case SetWakeable(_) => q.(entry := q.entry.(hasWakeable := true), lateWake := q.entry.pending != {})
    case AddObserver(_, key, callback) => q.(entry := q.entry.(observers := Insert(q.entry.observers, key, callback)))
    case Register(_, _, _, _) => ApplyRegister(s, q, op)
    case GetNext(_, _, _) => if HasPending(s, op.id) then ApplyGetNext(q, op) else q
    case DisposeTasks(_) => ApplyDisposeTasks(q)
  }

  function Apply(s: State, op: Op): (r: State)
    requires Enabled(s, op)
  {
    match op
    case Create =>
      s.(queues := s.queues[s.idCounter := Queue(NEW_ENTRY, History({}, [], {}), false)], idCounter := s.idCounter + 1)
    case Dispose(id) => s.(queues := s.queues - {id})
    case Register(id, _, _, _) =>
      s.(queues := s.queues[id := ApplyQueue(s, op)], registrations := s.registrations + 1)
    case _ => s.(queues := s.queues[op.id := ApplyQueue(s, op)])
  }

  // ----- Invariants of one queue

  /** Every registered task is pending, was returned once, or was disposed of. */
  ghost predicate Conserved(q: Queue) {
    multiset(q.history.registered)
      == multiset(q.entry.pending) + multiset(q.history.returned) + multiset(q.history.disposed)
  }

  predicate SerialsBelow(q: Queue, n: nat) {
    forall t | t in q.history.registered :: t.serial < n
  }

  /** Registered before and due no later: `a` must come out before `b`. */
  predicate Before(a: DelayedTask, b: DelayedTask) {
    && a.serial < b.serial
    && (a.target < b.target || (a.target == b.target && a.serial % WORD32 < b.serial % WORD32))
  }

  /** Nothing that must come before a returned task is still pending or was returned after it. */
  predicate InOrder(q: Queue) {
    var out := q.history.returned;
    && (forall k, a | 0 <= k < |out| && a in q.entry.pending :: !Before(a, out[k]))
    && (forall k, j | 0 <= k < j < |out| :: !Before(out[j], out[k]))
  }

  /** The wakeable was told a time no later than any pending target. */
  predicate Awake(q: Queue) {
    q.entry.hasWakeable && q.entry.pending != {} ==>
      && q.entry.lastWake.Some?
      && forall t | t in q.entry.pending :: q.entry.lastWake.value <= t.target
  }

  lemma BeforeIsLess(a: DelayedTask, b: DelayedTask)
    requires Before(a, b)
    ensures Greater(b, a)
  {
    OrderKeyExact(a.serial, b.serial);
  }

  ghost predicate QueueInv(s: State, id: Id, q: Queue) {
    && Conserved(q)
    && SerialsBelow(q, s.registrations)
    && InOrder(q)
    && (!q.entry.hasWakeable ==> q.entry.lastWake.None? && !q.lateWake)
    && (id != s.unmerged ==> (Awake(q) <==> !q.lateWake))
    && (id == s.unmerged ==> q.history.returned == [])
  }

  ghost predicate Inv(s: State) {
    forall id | id in s.queues :: id < s.idCounter && QueueInv(s, id, s.queues[id])
  }

  // ----- Every operation keeps them

  lemma MultisetFacts(q: Queue)
    requires Conserved(q)
    ensures q.entry.pending <= q.history.registered
    ensures forall k | 0 <= k < |q.history.returned| :: q.history.returned[k] in q.history.registered
  {
    forall t | t in q.entry.pending
      ensures t in q.history.registered
    {
      assert t in multiset(q.entry.pending);
      assert t in multiset(q.history.registered);
    }
    forall k | 0 <= k < |q.history.returned|
      ensures q.history.returned[k] in q.history.registered
    {
      assert q.history.returned[k] in multiset(q.history.returned);
      assert q.history.returned[k] in multiset(q.history.registered);
    }
  }

  lemma AddToMultiset(x: set<DelayedTask>, t: DelayedTask)
    requires t !in x
    ensures multiset(x + {t}) == multiset(x) + multiset{t}
  {
  }

  lemma StepConserved(s: State, op: Op)
    requires Enabled(s, op) && !op.Create? && !op.Dispose?
    requires Conserved(s.queues[op.id]) && SerialsBelow(s.queues[op.id], s.registrations)
    ensures Conserved(ApplyQueue(s, op))
  {
    var q := s.queues[op.id];
    MultisetFacts(q);
    match op
    case Register(_, _, _, _) =>
      AddToMultiset(q.entry.pending, NewTask(s, op));
      AddToMultiset(q.history.registered, NewTask(s, op));
    case GetNext(_, _, top) =>
      if HasPending(s, op.id) {
        AddToMultiset(q.entry.pending - {top}, top);
        assert q.entry.pending - {top} + {top} == q.entry.pending;
      }
    case DisposeTasks(_) =>
      forall t | t in q.entry.pending
        ensures t !in q.history.disposed
      {
        assert multiset(q.history.registered)[t] <= 1;
        assert multiset(q.entry.pending)[t] == 1;
      }
      assert multiset(q.history.disposed + q.entry.pending) == multiset(q.history.disposed) + multiset(q.entry.pending);
    case _ =>
  }

  lemma StepInOrder(s: State, op: Op)
    requires Enabled(s, op) && !op.Create? && !op.Dispose?
    requires Conserved(s.queues[op.id]) && SerialsBelow(s.queues[op.id], s.registrations) && InOrder(s.queues[op.id])
    ensures InOrder(ApplyQueue(s, op))
  {
    var q := s.queues[op.id];
    MultisetFacts(q);
    if op.GetNext? && HasPending(s, op.id) {
      forall a | a in q.entry.pending
        ensures !Before(a, op.top)
      {
        if Before(a, op.top) { BeforeIsLess(a, op.top); }
      }
    }
  }

  lemma StepQueue(s: State, op: Op)
    requires Enabled(s, op) && !op.Create? && !op.Dispose?
    requires QueueInv(s, op.id, s.queues[op.id])
    ensures QueueInv(Apply(s, op), op.id, ApplyQueue(s, op))
  {
    StepConserved(s, op);
    StepInOrder(s, op);
  }

  lemma StepInv(s: State, op: Op)
    requires Enabled(s, op) && Inv(s)
    ensures Inv(Apply(s, op))
  {
    var s' := Apply(s, op);
    if !op.Create? && !op.Dispose? { StepQueue(s, op); }
    forall id | id in s'.queues
      ensures id < s'.idCounter && QueueInv(s', id, s'.queues[id])
    {
      if id in s.queues && s'.queues[id] == s.queues[id] {
        assert QueueInv(s, id, s.queues[id]);
      }
    }
  }

  // ----- Whole runs

  predicate Leads(from: State, run: seq<Op>, s: State)
    decreases run
  {
    if run == [] then s == from
    else Enabled(from, run[0]) && Leads(Apply(from, run[0]), run[1..], s)
  }

  predicate Reached(unmerged: Id, run: seq<Op>, s: State) {
    Leads(Init(unmerged), run, s)
  }

  lemma {:induction false} LeadsInv(from: State, run: seq<Op>, s: State)
    requires Inv(from) && Leads(from, run, s)
    ensures Inv(s) && s.unmerged == from.unmerged
    decreases run
  {
    if run != [] {
      StepInv(from, run[0]);
      LeadsInv(Apply(from, run[0]), run[1..], s);
    }
  }

  /** In every run, registered tasks are exactly those pending, returned and disposed of. */
  lemma TasksConserved(unmerged: Id, run: seq<Op>, s: State, id: Id)
    requires Reached(unmerged, run, s) && id in s.queues
    ensures Conserved(s.queues[id])
  {
    LeadsInv(Init(unmerged), run, s);
  }

  /** In every run no task is returned twice, nor returned while pending. */
  lemma ReturnedOnce(unmerged: Id, run: seq<Op>, s: State, id: Id, t: DelayedTask)
    requires Reached(unmerged, run, s) && id in s.queues
    ensures multiset(s.queues[id].history.returned)[t] <= 1
    ensures t in s.queues[id].history.returned ==> t !in s.queues[id].entry.pending
  {
    TasksConserved(unmerged, run, s, id);
    var q := s.queues[id];
    assert multiset(q.history.registered)[t] <= 1;
    assert t in q.history.returned ==> multiset(q.history.returned)[t] >= 1;
    assert t in q.entry.pending ==> multiset(q.entry.pending)[t] == 1;
  }

  /**
    In every run, when `b` has been returned, every task of the same queue that
    must come before it was returned earlier or disposed of.
  */
  lemma TaskOrder(unmerged: Id, run: seq<Op>, s: State, id: Id, a: DelayedTask, k: nat)
    requires Reached(unmerged, run, s) && id in s.queues
    requires k < |s.queues[id].history.returned| && Before(a, s.queues[id].history.returned[k])
    requires a in s.queues[id].history.registered
    ensures a in s.queues[id].history.returned[..k] || a in s.queues[id].history.disposed
  {
    LeadsInv(Init(unmerged), run, s);
    var q := s.queues[id];
    assert a in multiset(q.history.registered);
    assert a !in multiset(q.entry.pending);
    if a !in q.history.disposed {
      assert a in multiset(q.history.returned);
      var j :| 0 <= j < |q.history.returned| && q.history.returned[j] == a;
      assert j < k;
    }
  }

  /** For the first 2^32 registrations "registered before and due no later" is enough. */
  lemma EarlyRegistrations(a: DelayedTask, b: DelayedTask)
    requires a.serial < b.serial < WORD32 && a.target <= b.target
    ensures Before(a, b)
  {
  }

  /**
    In every run, when two tasks due at the same time are pending, the queue may return
    the later one first if and only if nothing else stands before it and the counter
    came round between them: its count modulo 2^32 is not the larger one.
  */
  lemma OvertakingExact(unmerged: Id, run: seq<Op>, s: State, id: Id, a: DelayedTask, b: DelayedTask, from: Time)
    requires Reached(unmerged, run, s) && id in s.queues && id != unmerged
    requires a in s.queues[id].entry.pending && b in s.queues[id].entry.pending
    requires a.serial < b.serial && a.target == b.target <= from
    ensures Enabled(s, GetNext(id, from, b)) <==>
              && (forall u | u in s.queues[id].entry.pending && u != a :: !Greater(b, u))
              && b.serial % WORD32 <= a.serial % WORD32
    ensures Enabled(s, GetNext(id, from, b)) ==>
              var q := Apply(s, GetNext(id, from, b)).queues[id];
              q.history.returned == s.queues[id].history.returned + [b] && a in q.entry.pending
  {
    LeadsInv(Init(unmerged), run, s);
    OrderKeyExact(a.serial, b.serial);
    OrderKeyExact(b.serial, a.serial);
    assert Greater(b, a) <==> b.serial % WORD32 > a.serial % WORD32;
  }

  // ----- A run in which a task is overtaken

  lemma {:induction false} LeadsAppend(from: State, run: seq<Op>, s: State, op: Op)
    requires Leads(from, run, s) && Enabled(s, op)
    ensures Leads(from, run + [op], Apply(s, op))
    decreases run
  {
    if run == [] {
      assert run + [op] == [op];
      assert Leads(Apply(s, op), [], Apply(s, op));
    } else {
      assert (run + [op])[1..] == run[1..] + [op];
      LeadsAppend(Apply(from, run[0]), run[1..], s, op);
    }
  }

  /** One registration, with whatever is then on top. */
  lemma RegisterOne(from: State, run: seq<Op>, s: State, id: Id, target: Time) returns (run': seq<Op>, s': State)
    requires Leads(from, run, s) && id in s.queues && id != s.unmerged
    ensures Leads(from, run', s') && s'.registrations == s.registrations + 1 && s'.unmerged == s.unmerged
    ensures s'.queues.Keys == s.queues.Keys && (forall i | i in s.queues && i != id :: s'.queues[i] == s.queues[i])
    ensures s'.queues[id].entry.pending
         == s.queues[id].entry.pending + {DelayedTask(s.registrations, Callback(0), target)}
  {
    var t := DelayedTask(s.registrations, Callback(0), target);
    var top := TopExists(s.queues[id].entry.pending + {t});
    var op := Register(id, Callback(0), target, top);
    LeadsAppend(from, run, s, op);
    run', s' := run + [op], Apply(s, op);
  }

  /** Any number of registrations on one queue leaves the others alone. */
  lemma {:induction false} RegisterMany(from: State, run: seq<Op>, s: State, id: Id, n: nat)
      returns (run': seq<Op>, s': State)
    requires Leads(from, run, s) && id in s.queues && id != s.unmerged
    ensures Leads(from, run', s') && s'.registrations == s.registrations + n && s'.unmerged == s.unmerged
    ensures s'.queues.Keys == s.queues.Keys && (forall i | i in s.queues && i != id :: s'.queues[i] == s.queues[i])
    decreases n
  {
    run', s' := run, s;
    if n > 0 {
      run', s' := RegisterMany(from, run, s, id, n - 1);
      run', s' := RegisterOne(from, run', s', id, 0);
    }
  }

  lemma TwoQueues(unmerged: Id) returns (run: seq<Op>, s: State)
    requires unmerged > 1
    ensures Reached(unmerged, run, s) && s.unmerged == unmerged && s.registrations == 0
    ensures 0 in s.queues && 1 in s.queues && s.queues[0].entry.pending == {}
  {
    var s0 := Init(unmerged);
    var s1 := Apply(s0, Create);
    s := Apply(s1, Create);
    LeadsAppend(s0, [], s0, Create);
    assert [] + [Create] == [Create];
    LeadsAppend(s0, [Create], s1, Create);
    run := [Create] + [Create];
  }

  /**
    So the ordering of registrations is not kept for ever: there is a run in which the
    first task of a queue is still pending and a task registered 2^32 registrations
    after it, for the same time, can be returned.
  */
  lemma OvertakenRun(unmerged: Id, target: Time) returns (run: seq<Op>, s: State, a: DelayedTask, b: DelayedTask)
    requires unmerged > 1
    ensures Reached(unmerged, run, s) && 0 in s.queues && s.queues[0].entry.pending == {a, b}
    ensures b.serial == a.serial + 0x1_0000_0000 && a.target == b.target == target && Enabled(s, GetNext(0, target, b))
  {
    var from := Init(unmerged);
    run, s := TwoQueues(unmerged);
    a := DelayedTask(0, Callback(0), target);
    run, s := RegisterOne(from, run, s, 0, target);
    run, s := RegisterMany(from, run, s, 1, WORD32 - 1);
    b := DelayedTask(WORD32, Callback(0), target);
    run, s := RegisterOne(from, run, s, 0, target);
    assert s.queues[0].entry.pending == {a, b};
    OvertakingExact(unmerged, run, s, 0, a, b, target);
  }

  /**
    In every run, a queue with a wakeable and pending tasks has been woken no later
    than the earliest target, unless its wakeable was set over pending tasks and no
    operation has woken it since.
  */
  lemma NoLostWakeup(unmerged: Id, run: seq<Op>, s: State, id: Id)
    requires Reached(unmerged, run, s) && id in s.queues && id != unmerged
    ensures Awake(s.queues[id]) <==> !s.queues[id].lateWake
  {
    LeadsInv(Init(unmerged), run, s);
  }

  predicate Elsewhere(run: seq<Op>, id: Id) {
    forall k | 0 <= k < |run| :: run[k].Create? || run[k].id != id
  }

  lemma {:induction false} ElsewhereKeeps(from: State, run: seq<Op>, s: State, id: Id)
    requires Leads(from, run, s) && Elsewhere(run, id) && id in from.queues && id < from.idCounter
    ensures id in s.queues && s.queues[id] == from.queues[id]
    decreases run
  {
    if run != [] {
      assert run[0].Create? || run[0].id != id;
      assert forall k | 0 <= k < |run[1..]| :: run[1..][k] == run[k + 1];
      ElsewhereKeeps(Apply(from, run[0]), run[1..], s, id);
    }
  }

  /**
    In every run, when a queue with a wakeable was asked and had only tasks for later, then
    as long as no other operation touches it, the wake-up last asked for is exactly its
    earliest target.
  */
  lemma VainAskWakesExactly(unmerged: Id, run: seq<Op>, s: State, op: Op, more: seq<Op>, s': State)
    requires Reached(unmerged, run, s) && op.GetNext? && Enabled(s, op) && op.id != unmerged
    requires s.queues[op.id].entry.hasWakeable && s.queues[op.id].entry.pending != {} && op.top.target > op.from
    requires Leads(Apply(s, op), more, s') && Elsewhere(more, op.id)
    ensures op.id in s'.queues
    ensures var e := s'.queues[op.id].entry;
            e.pending == s.queues[op.id].entry.pending && e.lastWake == Some(Earliest(e.pending))
  {
    LeadsInv(Init(unmerged), run, s);
    TopIsEarliest(s.queues[op.id].entry.pending, op.top);
    ElsewhereKeeps(Apply(s, op), more, s', op.id);
  }

  /** A queue that got the reserved id never returns a task. */
  lemma ReservedIdHides(unmerged: Id, run: seq<Op>, s: State)
    requires Reached(unmerged, run, s) && unmerged in s.queues
    ensures s.queues[unmerged].history.returned == []
  {
    LeadsInv(Init(unmerged), run, s);
  }

  /** Queue ids are handed out in order, so none is the reserved one until that many were made. */
  lemma IdsBelowCounter(unmerged: Id, run: seq<Op>, s: State, id: Id)
    requires Reached(unmerged, run, s) && id in s.queues && s.idCounter <= unmerged
    ensures id != unmerged
  {
    LeadsInv(Init(unmerged), run, s);
  }
}
