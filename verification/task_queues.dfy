/**
  Delayed tasks and the task queues of the message loops. Every public operation
  of the queues runs under one mutex, so an operation is one atomic step.
*/
module TaskQueueCore {
  /** Nanoseconds since some epoch. */
  type Time = int

  /** A `std::function`: empty, or some callback. */
  datatype Task = Null | Callback(id: nat)

  /** A task in a queue; `serial` counts the registrations before it, over all queues. */
  datatype DelayedTask = DelayedTask(serial: nat, task: Task, target: Time)

  const WORD32 := 0x1_0000_0000
  const WORD64 := 0x1_0000_0000_0000_0000

  /** The value of the wrapping 32-bit signed counter after `n` increments. */
  function AtomicInt(n: nat): (r: int) {
    if n % WORD32 < WORD32 / 2 then n % WORD32 else n % WORD32 - WORD32
  }

  /** That value converted to `size_t`: the order key of the registration with this serial number. */
  function OrderKey(serial: nat): (r: nat) {
    AtomicInt(serial) % WORD64
  }

  /** The order keys follow the registrations until the counter comes round. */
  lemma OrderKeyExact(m: nat, n: nat)
    ensures OrderKey(m) < OrderKey(n) <==> m % 0x1_0000_0000 < n % 0x1_0000_0000
    ensures OrderKey(m) == OrderKey(n) <==> m % 0x1_0000_0000 == n % 0x1_0000_0000
  {
    var a, b := m % WORD32, n % WORD32;
    assert AtomicInt(m) % WORD64 == if a < WORD32 / 2 then a else WORD64 - WORD32 + a;
    assert AtomicInt(n) % WORD64 == if b < WORD32 / 2 then b else WORD64 - WORD32 + b;
  }

  /** `operator>` on delayed tasks. */
  predicate Greater(a: DelayedTask, b: DelayedTask) {
    if a.target == b.target then OrderKey(a.serial) > OrderKey(b.serial) else a.target > b.target
  }

  /** It is a strict order, and total up to equal keys. */
  lemma GreaterIsStrictOrder(a: DelayedTask, b: DelayedTask, c: DelayedTask)
    ensures !Greater(a, a)
    ensures Greater(a, b) && Greater(b, c) ==> Greater(a, c)
    ensures !Greater(a, b) && !Greater(b, c) ==> !Greater(a, c)
    ensures a.serial != b.serial && a.serial < WORD32 && b.serial < WORD32 ==> Greater(a, b) || Greater(b, a)
  {
    OrderKeyExact(a.serial, b.serial);
  }

  /** An element the priority queue may have on top: nothing in it comes before. */
  predicate IsTop(pending: set<DelayedTask>, t: DelayedTask) {
    t in pending && forall u | u in pending :: !Greater(t, u)
  }

  datatype Option<T> = None | Some(value: T)

  datatype Observer = Observer(key: int, callback: Task)

  /** The entries of the observers' `std::map`, in its iteration order. */
  predicate Sorted(observers: seq<Observer>) {
    forall i, j | 0 <= i < j < |observers| :: observers[i].key < observers[j].key
  }

  /** `observers[key] = callback` on the sorted map. */
  function Insert(observers: seq<Observer>, key: int, callback: Task): (r: seq<Observer>) {
    if observers == [] || key < observers[0].key then [Observer(key, callback)] + observers
    else if key == observers[0].key then [Observer(key, callback)] + observers[1..]
    else [observers[0]] + Insert(observers[1..], key, callback)
  }

  /** All keys are above `k`. */
  predicate Above(observers: seq<Observer>, k: int) {
    forall i | 0 <= i < |observers| :: k < observers[i].key
  }

  lemma SortedCons(o: Observer, rest: seq<Observer>)
    ensures Sorted([o] + rest) <==> Above(rest, o.key) && Sorted(rest)
  {
    var all := [o] + rest;
    assert forall i | 0 <= i < |rest| :: all[i + 1] == rest[i];
    if Sorted(all) {
      forall i | 0 <= i < |rest|
        ensures o.key < rest[i].key
      {
        assert all[0].key < all[i + 1].key;
      }
      forall i, j | 0 <= i < j < |rest|
        ensures rest[i].key < rest[j].key
      {
        assert all[i + 1].key < all[j + 1].key;
      }
    }
  }

  lemma {:induction false} InsertSorted(observers: seq<Observer>, key: int, callback: Task, k: int)
    requires Sorted(observers)
    ensures Sorted(Insert(observers, key, callback))
    ensures Above(observers, k) && k < key ==> Above(Insert(observers, key, callback), k)
  {
    if observers != [] {
      var first, rest := observers[0], observers[1..];
      assert observers == [first] + rest;
      SortedCons(first, rest);
      if key > first.key {
        InsertSorted(rest, key, callback, first.key);
        InsertSorted(rest, key, callback, k);
        SortedCons(first, Insert(rest, key, callback));
      } else if key == first.key {
        SortedCons(Observer(key, callback), rest);
      } else {
        SortedCons(Observer(key, callback), observers);
      }
    }
  }

  /** Insertion keeps the map sorted, binds the key, and leaves every other binding alone. */
  lemma {:induction false} InsertExact(observers: seq<Observer>, key: int, callback: Task)
    requires Sorted(observers)
    ensures Sorted(Insert(observers, key, callback))
    ensures forall o :: o in Insert(observers, key, callback)
                   <==> o == Observer(key, callback) || (o.key != key && o in observers)
  {
    InsertSorted(observers, key, callback, key);
    if observers != [] {
      var first, rest := observers[0], observers[1..];
      assert observers == [first] + rest;
      SortedCons(first, rest);
      if key > first.key { InsertExact(rest, key, callback); }
    }
  }

  /** A queue; `lastWake` is the time last passed to its wakeable, if any. */
  datatype Entry = Entry(
    hasWakeable: bool, lastWake: Option<Time>, observers: seq<Observer>, pending: set<DelayedTask>)

  const NEW_ENTRY := Entry(false, None, [], {})

  function WakeUp(e: Entry, time: Time): (r: Entry) {
    if e.hasWakeable then e.(lastWake := Some(time)) else e
  }

  /** Queueing `t` and waking the loop for the earliest task, which is `top`. */
  function Registered(e: Entry, t: DelayedTask, top: DelayedTask): (r: Entry) {
    WakeUp(e.(pending := e.pending + {t}), top.target)
  }

  /** Asking for a task that is due at `from`, when `top` is the earliest one. */
  function Asked(e: Entry, top: DelayedTask, from: Time): (r: Entry) {
    var woken := WakeUp(e, top.target);
    if top.target > from then woken else woken.(pending := e.pending - {top})
  }

  lemma {:induction false} TopExists(pending: set<DelayedTask>) returns (t: DelayedTask)
    requires pending != {}
    ensures IsTop(pending, t)
    decreases |pending|
  {
    t :| t in pending;
    var rest := pending - {t};
    if rest != {} {
      var u := TopExists(rest);
      var (lo, hi) := if Greater(t, u) then (u, t) else (t, u);
      forall v | v in pending
        ensures !Greater(lo, v)
      {
        GreaterIsStrictOrder(lo, hi, lo);
        GreaterIsStrictOrder(lo, u, v);
      }
      t := lo;
    } else {
      assert pending == {t};
    }
  }

  lemma SomeTop(pending: set<DelayedTask>)
    requires pending != {}
    ensures exists t :: IsTop(pending, t)
  {
    var t := TopExists(pending);
  }

  /** The target time of whatever the priority queue has on top. */
  ghost function Earliest(pending: set<DelayedTask>): (r: Time)
    requires pending != {}
    ensures forall t | t in pending :: r <= t.target
    ensures exists t :: t in pending && t.target == r
  {
    SomeTop(pending);
    var t :| IsTop(pending, t);
    t.target
  }

  lemma TopIsEarliest(pending: set<DelayedTask>, t: DelayedTask)
    requires IsTop(pending, t)
    ensures t.target == Earliest(pending)
  {
  }

  type Id = nat

  class TaskQueues {
    const unmerged: Id
    var entries: map<Id, Entry>
    var idCounter: nat
    var registrations: nat

    constructor (unmerged: Id)
      ensures entries == map[] && idCounter == 0 && registrations == 0 && this.unmerged == unmerged
    {
      this.unmerged, entries, idCounter, registrations := unmerged, map[], 0, 0;
    }

    method CreateTaskQueue() returns (id: Id)
      modifies this
      ensures id == old(idCounter) && idCounter == old(idCounter) + 1 && registrations == old(registrations)
      ensures entries == old(entries)[id := NEW_ENTRY]
    {
      id := idCounter;
      idCounter := idCounter + 1;
      entries := entries[id := NEW_ENTRY];
    }

    /** A queue is its own owner, so only the reserved id hides its tasks. */
    predicate HasPending(id: Id)
      requires id in entries
      reads this
    {
      id != unmerged && entries[id].pending != {}
    }

    /** The top of the priority queue. */
    method PeekNextTask(id: Id) returns (top: DelayedTask)
      requires id in entries && HasPending(id)
      ensures IsTop(entries[id].pending, top)
    {
      var rest := entries[id].pending;
      top :| top in rest;
      rest := rest - {top};
      while rest != {}
        invariant rest <= entries[id].pending
        invariant top in entries[id].pending
        invariant forall u | u in entries[id].pending - rest :: !Greater(top, u)
        decreases |rest|
      {
        var t :| t in rest;
        forall u | u in entries[id].pending - rest && Greater(top, t)
          ensures !Greater(t, u)
        {
          GreaterIsStrictOrder(top, t, u);
          GreaterIsStrictOrder(t, u, top);
          GreaterIsStrictOrder(t, top, u);
        }
        GreaterIsStrictOrder(t, t, t);
        if Greater(top, t) { top := t; }
        rest := rest - {t};
      }
    }

    method RegisterTask(id: Id, task: Task, target: Time) returns (ghost top: DelayedTask)
      requires id in entries
      modifies this
      ensures registrations == old(registrations) + 1 && idCounter == old(idCounter)
      ensures var t := DelayedTask(old(registrations), task, target);
              && (id != unmerged ==> IsTop(old(entries)[id].pending + {t}, top))
              && entries == old(entries)[id := if id != unmerged then Registered(old(entries)[id], t, top)
                                              else old(entries)[id].(pending := old(entries)[id].pending + {t})]
    {
      var t := DelayedTask(registrations, task, target);
      registrations := registrations + 1;
      var e := entries[id];
      entries := entries[id := e.(pending := e.pending + {t})];
      top := t;
      if HasPending(id) {
        var next := PeekNextTask(id);
        top := next;
        entries := entries[id := WakeUp(entries[id], next.target)];
      }
    }

    /** What to run now, or null; the loop is woken for what is on top either way. */
    method GetNextTaskToRun(id: Id, from: Time) returns (task: Task, ghost top: DelayedTask)
      requires id in entries
      modifies this
      ensures registrations == old(registrations) && idCounter == old(idCounter)
      ensures if !old(HasPending(id)) then task == Null && entries == old(entries)
              else && IsTop(old(entries)[id].pending, top)
                   && entries == old(entries)[id := Asked(old(entries)[id], top, from)]
                   && task == if top.target > from then Null else top.task
    {
      top := DelayedTask(0, Null, 0);
      if !HasPending(id) {
        return Null, top;
      }
      var next := PeekNextTask(id);
      top := next;
      entries := entries[id := WakeUp(entries[id], next.target)];
      if next.target > from {
        return Null, top;
      }
      var e := entries[id];
      entries := entries[id := e.(pending := e.pending - {next})];
      task := next.task;
    }

    method DisposeTasks(id: Id)
      requires id in entries
      modifies this
      ensures entries == old(entries)[id := old(entries)[id].(pending := {})]
      ensures registrations == old(registrations) && idCounter == old(idCounter)
    {
      entries := entries[id := entries[id].(pending := {})];
    }

    method SetWakeable(id: Id)
      requires id in entries && !entries[id].hasWakeable
      modifies this
      ensures entries == old(entries)[id := old(entries)[id].(hasWakeable := true)]
      ensures registrations == old(registrations) && idCounter == old(idCounter)
    {
      entries := entries[id := entries[id].(hasWakeable := true)];
    }

    method AddTaskObserver(id: Id, key: int, callback: Task)
      requires id in entries && callback != Null
      modifies this
      ensures entries == old(entries)[id := old(entries)[id].(observers := Insert(old(entries)[id].observers, key, callback))]
      ensures registrations == old(registrations) && idCounter == old(idCounter)
    {
      var e := entries[id];
      entries := entries[id := e.(observers := Insert(e.observers, key, callback))];
    }
  }
}
