/**
  The message loop over one task queue: posting, flushing with observers, running
  and terminating. What a callback does when it is called is a parameter.
*/
module MessageLoops {
  import opened TaskQueueCore

  /** A callback that can be called: posting an empty one is a programming error. */
  type RealTask = t: Task | t != Null witness Callback(0)

  /** The things a running callback, or another thread, can do to a loop. */
  datatype Action = Post(task: RealTask, time: Time) | Observe(key: int, callback: Task) | Terminate

  /**
    What a callback does when it is called: any function of the time of the flush and
    of how many calls the loop made before, so no two calls need be alike.
  */
  type Behaviour = (Task, Time, nat) -> seq<Action>

  datatype Event = Ran(task: DelayedTask) | Notified(key: int)

  /** A loop's queue entry, the shared registration counter, its flag, and what it ran. */
  datatype Loop = Loop(entry: Entry, registrations: nat, terminated: bool, log: seq<Event>)

  // ----- The effect of each operation

  ghost function Posted(l: Loop, task: Task, time: Time): (r: Loop) {
    if l.terminated then l
    else
      var pending := l.entry.pending + {DelayedTask(l.registrations, task, time)};
      l.(entry := WakeUp(l.entry.(pending := pending), Earliest(pending)), registrations := l.registrations + 1)
  }

  ghost function Act(l: Loop, a: Action): (r: Loop) {
    match a
    case Post(task, time) => Posted(l, task, time)
    case Observe(key, callback) =>
      if callback == Null then l else l.(entry := l.entry.(observers := Insert(l.entry.observers, key, callback)))
    case Terminate => l.(terminated := true)
  }

  ghost function Acts(l: Loop, actions: seq<Action>): (r: Loop)
    decreases |actions|
  {
    if actions == [] then l else Act(Acts(l, actions[..|actions| - 1]), actions[|actions| - 1])
  }

  /** Calling a callback is recorded, and then it acts. */
  ghost function Call(b: Behaviour, l: Loop, event: Event, task: Task, now: Time): (r: Loop) {
    Acts(l.(log := l.log + [event]), b(task, now, |l.log|))
  }

  /** Calling the observers of a snapshot, in order. */
  ghost function NotifyAll(b: Behaviour, l: Loop, observers: seq<Observer>, now: Time): (r: Loop)
    decreases |observers|
  {
    if observers == [] then l
    else
      var last := observers[|observers| - 1];
      Call(b, NotifyAll(b, l, observers[..|observers| - 1], now), Notified(last.key), last.callback, now)
  }

  /** The loop when the callback of the task on top has run. */
  ghost function RunTask(b: Behaviour, l: Loop, t: DelayedTask, now: Time): (r: Loop) {
    Call(b, l.(entry := Asked(l.entry, t, now)), Ran(t), t.task, now)
  }

  /** One turn of the flush: what is on top is taken out and run, then every observer. */
  ghost function RunOne(b: Behaviour, l: Loop, t: DelayedTask, now: Time): (r: Loop) {
    var ran := RunTask(b, l, t, now);
    NotifyAll(b, ran, ran.entry.observers, now)
  }

  ghost function RunAll(b: Behaviour, l: Loop, order: seq<DelayedTask>, now: Time): (r: Loop)
    decreases |order|
  {
    if order == [] then l
    else RunOne(b, RunAll(b, l, order[..|order| - 1], now), order[|order| - 1], now)
  }

  /** Asking once more finds nothing due, and wakes the loop for what is left. */
  ghost function AskInVain(l: Loop): (r: Loop) {
    if l.entry.pending == {} then l
    else l.(entry := WakeUp(l.entry, Earliest(l.entry.pending)))
  }

  // ----- What is due

  function Due(l: Loop, now: Time): (r: set<DelayedTask>) {
    set t | t in l.entry.pending && t.target <= now
  }

  /** `order` can be run turn by turn: each task is on top and due when its turn comes. */
  ghost predicate Turns(b: Behaviour, l: Loop, order: seq<DelayedTask>, now: Time)
    decreases |order|
  {
    order == [] ||
    var (front, last) := (order[..|order| - 1], order[|order| - 1]);
    Turns(b, l, front, now) && IsTop(RunAll(b, l, front, now).entry.pending, last) && last.target <= now
  }

  /** Everything pending in `l'` that was not pending in `l` is for later than `now`. */
  predicate AddedLater(l: Loop, l': Loop, now: Time) {
    forall t | t in l'.entry.pending && t !in l.entry.pending :: t.target > now
  }

  /** Whatever turns a flush at `now` takes from here, the tasks posted in them are for later than `now`. */
  ghost predicate Settling(b: Behaviour, l: Loop, now: Time) {
    forall order | Turns(b, l, order, now) :: AddedLater(l, RunAll(b, l, order, now), now)
  }

  /** A flush at `now` from here takes at most `n` turns. */
  ghost predicate Bounded(b: Behaviour, l: Loop, now: Time, n: nat) {
    forall order | Turns(b, l, order, now) :: |order| <= n
  }

  /** A flush at `now` from here comes to an end. */
  ghost predicate Ends(b: Behaviour, l: Loop, now: Time) {
    exists n: nat :: Bounded(b, l, now, n)
  }

  /** What every loop keeps: serials of registered tasks, callable tasks, observers in key order. */
  predicate Sane(l: Loop) {
    (forall t | t in l.entry.pending :: t.serial < l.registrations && t.task != Null) && Sorted(l.entry.observers)
  }

  // ----- What callbacks can change

  /** From `l` to `l'` tasks were only added, with new serials; a terminated loop got none. */
  predicate Grows(l: Loop, l': Loop) {
    && l.entry.pending <= l'.entry.pending && l.registrations <= l'.registrations
    && (forall t | t in l'.entry.pending && t !in l.entry.pending :: l.registrations <= t.serial)
    && (Sane(l) ==> Sane(l')) && l'.entry.hasWakeable == l.entry.hasWakeable
    && (l.terminated ==> l'.terminated && l'.entry.pending == l.entry.pending)
  }

  lemma ActGrows(l: Loop, a: Action)
    ensures Grows(l, Act(l, a))
  {
    if a.Observe? && Sorted(l.entry.observers) { InsertExact(l.entry.observers, a.key, a.callback); }
  }

  lemma {:induction false} ActsGrow(l: Loop, actions: seq<Action>)
    ensures Grows(l, Acts(l, actions))
    decreases |actions|
  {
    if actions != [] {
      var front := Acts(l, actions[..|actions| - 1]);
      ActsGrow(l, actions[..|actions| - 1]);
      ActGrows(front, actions[|actions| - 1]);
    }
  }

  lemma CallGrows(b: Behaviour, l: Loop, event: Event, task: Task, now: Time)
    ensures Grows(l, Call(b, l, event, task, now))
  {
    ActsGrow(l.(log := l.log + [event]), b(task, now, |l.log|));
  }

  lemma {:induction false} NotifyGrows(b: Behaviour, l: Loop, observers: seq<Observer>, now: Time)
    ensures Grows(l, NotifyAll(b, l, observers, now))
    decreases |observers|
  {
    if observers != [] {
      var front, last := NotifyAll(b, l, observers[..|observers| - 1], now), observers[|observers| - 1];
      NotifyGrows(b, l, observers[..|observers| - 1], now);
      CallGrows(b, front, Notified(last.key), last.callback, now);
    }
  }

  /** A turn takes its own task out, and otherwise tasks are only added. */
  lemma RunOneGrows(b: Behaviour, l: Loop, t: DelayedTask, now: Time)
    requires t.target <= now
    ensures Grows(l.(entry := Asked(l.entry, t, now)), RunOne(b, l, t, now))
  {
    CallGrows(b, l.(entry := Asked(l.entry, t, now)), Ran(t), t.task, now);
    var ran := RunTask(b, l, t, now);
    NotifyGrows(b, ran, ran.entry.observers, now);
  }

  // ----- Flushing exactly the due tasks

  /** `order` lists the tasks of `due`, each once, none before one that is less. */
  ghost predicate InTurn(due: set<DelayedTask>, order: seq<DelayedTask>) {
    && multiset(order) == multiset(due)
    && forall i, j | 0 <= i < j < |order| :: !Greater(order[i], order[j])
  }

  /** How far a flush from `start` has come: it ran `order`, and nothing of that is left. */
  ghost predicate Progress(b: Behaviour, start: Loop, order: seq<DelayedTask>, now: Time, l: Loop) {
    && Turns(b, start, order, now) && l == RunAll(b, start, order, now)
    && start.registrations <= l.registrations && Sane(l)
    && multiset(order) + multiset(Due(l, now)) == multiset(Due(start, now))
    && (forall i, j | 0 <= i < j < |order| :: !Greater(order[i], order[j]))
    && (forall i, u | 0 <= i < |order| && u in Due(l, now) :: !Greater(order[i], u))
  }

  /** A turn takes exactly its task off the due ones. */
  lemma TurnSettles(b: Behaviour, start: Loop, l: Loop, t: DelayedTask, now: Time, l': Loop)
    requires Sane(start) && Sane(l) && start.registrations <= l.registrations
    requires t in l.entry.pending && t.target <= now && l' == RunOne(b, l, t, now) && AddedLater(start, l', now)
    ensures Due(l', now) == Due(l, now) - {t} && Sane(l') && start.registrations <= l'.registrations
  {
    RunOneGrows(b, l, t, now);
    forall u | u in Due(l', now)
      ensures u in Due(l, now) - {t}
    {
      assert u in start.entry.pending;
    }
  }

  lemma TurnsAppend(b: Behaviour, l: Loop, order: seq<DelayedTask>, t: DelayedTask, now: Time)
    requires Turns(b, l, order, now) && IsTop(RunAll(b, l, order, now).entry.pending, t) && t.target <= now
    ensures Turns(b, l, order + [t], now)
    ensures RunAll(b, l, order + [t], now) == RunOne(b, RunAll(b, l, order, now), t, now)
  {
    assert (order + [t])[..|order|] == order;
  }

  lemma ProgressStep(b: Behaviour, start: Loop, order: seq<DelayedTask>, now: Time, l: Loop, t: DelayedTask, l': Loop)
    requires Sane(start) && AddedLater(start, l', now) && Progress(b, start, order, now, l)
    requires IsTop(l.entry.pending, t) && t.target <= now && l' == RunOne(b, l, t, now)
    ensures Progress(b, start, order + [t], now, l') && |Due(l', now)| < |Due(l, now)|
  {
    TurnsAppend(b, start, order, t, now);
    TurnSettles(b, start, l, t, now, l');
    var due := Due(l, now);
    assert t in due;
    assert multiset(due) == multiset(due - {t}) + multiset{t};
  }

  // ----- Exactly when a flush runs the tasks due at its start

  /** Nothing due was added up to any of these turns. */
  ghost predicate LateThroughout(b: Behaviour, l: Loop, order: seq<DelayedTask>, now: Time) {
    forall k | 0 <= k <= |order| :: AddedLater(l, RunAll(b, l, order[..k], now), now)
  }

  lemma LateFront(b: Behaviour, l: Loop, order: seq<DelayedTask>, now: Time, front: seq<DelayedTask>)
    requires order != [] && front == order[..|order| - 1] && LateThroughout(b, l, order, now)
    ensures LateThroughout(b, l, front, now) && AddedLater(l, RunAll(b, l, order, now), now)
  {
    forall k | 0 <= k <= |front|
      ensures AddedLater(l, RunAll(b, l, front[..k], now), now)
    {
      assert front[..k] == order[..k];
    }
    assert order[..|order|] == order;
  }

  lemma {:induction false} LateProgress(b: Behaviour, l: Loop, order: seq<DelayedTask>, now: Time)
    requires Sane(l) && Turns(b, l, order, now) && LateThroughout(b, l, order, now)
    ensures Progress(b, l, order, now, RunAll(b, l, order, now))
    decreases |order|
  {
    if order != [] {
      var front, last := order[..|order| - 1], order[|order| - 1];
      LateFront(b, l, order, now, front);
      LateProgress(b, l, front, now);
      ProgressStep(b, l, front, now, RunAll(b, l, front, now), last, RunAll(b, l, order, now));
      assert front + [last] == order;
    }
  }

  /** A task that is no longer pending has had its turn. */
  lemma {:induction false} LeftByTurn(b: Behaviour, l: Loop, order: seq<DelayedTask>, now: Time, k: nat, u: DelayedTask)
    requires Turns(b, l, order, now) && k <= |order| && u in RunAll(b, l, order[..k], now).entry.pending
    ensures u in RunAll(b, l, order, now).entry.pending || u in order
    decreases |order|
  {
    if k == |order| {
      assert order[..k] == order;
    } else {
      var front, last := order[..|order| - 1], order[|order| - 1];
      assert front[..k] == order[..k];
      LeftByTurn(b, l, front, now, k, u);
      RunOneGrows(b, RunAll(b, l, front, now), last, now);
    }
  }

  /**
    The turns ran exactly the tasks due at the start, each once, if and only if nothing
    posted during them was due; and then in the order of targets and registrations.
  */
  ghost predicate ExactWhenLate(b: Behaviour, l: Loop, order: seq<DelayedTask>, now: Time) {
    && (multiset(order) == multiset(Due(l, now)) <==> LateThroughout(b, l, order, now))
    && (LateThroughout(b, l, order, now) ==> InTurn(Due(l, now), order))
  }

  /** So it is with every completed flush. */
  lemma FlushExact(b: Behaviour, l: Loop, order: seq<DelayedTask>, now: Time)
    requires Sane(l) && Turns(b, l, order, now) && Due(RunAll(b, l, order, now), now) == {}
    ensures ExactWhenLate(b, l, order, now)
  {
    var ran := RunAll(b, l, order, now);
    if LateThroughout(b, l, order, now) {
      LateProgress(b, l, order, now);
      assert multiset(Due(ran, now)) == multiset{};
    } else {
      var k :| 0 <= k <= |order| && !AddedLater(l, RunAll(b, l, order[..k], now), now);
      var u :| u in RunAll(b, l, order[..k], now).entry.pending && u !in l.entry.pending && u.target <= now;
      LeftByTurn(b, l, order, now, k, u);
      assert u !in Due(ran, now);
      assert u in multiset(order) && u !in multiset(Due(l, now));
    }
  }

  lemma AllLater(l: Loop, now: Time)
    requires Due(l, now) == {}
    ensures forall t | t in AskInVain(l).entry.pending :: t.target > now
  {
    forall t | t in AskInVain(l).entry.pending
      ensures t.target > now
    {
      assert t !in Due(l, now);
    }
  }

  // ----- Flushes that end

  lemma {:induction false} TurnsPrefix(b: Behaviour, l: Loop, order: seq<DelayedTask>, now: Time, k: nat)
    requires Turns(b, l, order, now) && k <= |order|
    ensures Turns(b, l, order[..k], now)
    decreases |order|
  {
    if k == |order| {
      assert order[..k] == order;
    } else {
      var front := order[..|order| - 1];
      assert front[..k] == order[..k];
      TurnsPrefix(b, l, front, now, k);
    }
  }

  /** When nothing due is posted during it, a flush ends after as many turns as tasks are due. */
  lemma SettlingEnds(b: Behaviour, l: Loop, now: Time)
    requires Sane(l) && Settling(b, l, now)
    ensures Bounded(b, l, now, |Due(l, now)|) && Ends(b, l, now)
  {
    forall order | Turns(b, l, order, now)
      ensures |order| <= |Due(l, now)|
    {
      forall k | 0 <= k <= |order|
        ensures AddedLater(l, RunAll(b, l, order[..k], now), now)
      {
        TurnsPrefix(b, l, order, now, k);
      }
      LateProgress(b, l, order, now);
      assert |multiset(order)| <= |multiset(Due(l, now))|;
    }
    assert Bounded(b, l, now, |Due(l, now)|);
  }

  /** A terminated loop settles: no task can be added to it. */
  lemma {:induction false} TerminatedTurns(b: Behaviour, l: Loop, order: seq<DelayedTask>, now: Time)
    requires l.terminated && Turns(b, l, order, now)
    ensures RunAll(b, l, order, now).entry.pending <= l.entry.pending && RunAll(b, l, order, now).terminated
    decreases |order|
  {
    if order != [] {
      var front, last := order[..|order| - 1], order[|order| - 1];
      TerminatedTurns(b, l, front, now);
      RunOneGrows(b, RunAll(b, l, front, now), last, now);
    }
  }

  lemma TerminatedSettles(b: Behaviour, l: Loop, now: Time)
    requires l.terminated
    ensures Settling(b, l, now)
  {
    forall order | Turns(b, l, order, now)
      ensures AddedLater(l, RunAll(b, l, order, now), now)
    {
      TerminatedTurns(b, l, order, now);
    }
  }

  // ----- What a flush calls

  function KeysOf(observers: seq<Observer>): (r: seq<Event>)
    ensures |r| == |observers| && forall i | 0 <= i < |r| :: r[i] == Notified(observers[i].key)
  {
    seq(|observers|, i requires 0 <= i < |observers| => Notified(observers[i].key))
  }

  lemma {:induction false} ActsLog(l: Loop, actions: seq<Action>)
    ensures Acts(l, actions).log == l.log
    decreases |actions|
  {
    if actions != [] { ActsLog(l, actions[..|actions| - 1]); }
  }

  lemma {:induction false} NotifyLog(b: Behaviour, l: Loop, observers: seq<Observer>, now: Time)
    ensures NotifyAll(b, l, observers, now).log == l.log + KeysOf(observers)
    decreases |observers|
  {
    if observers != [] {
      var front, last := observers[..|observers| - 1], observers[|observers| - 1];
      NotifyLog(b, l, front, now);
      var l1 := NotifyAll(b, l, front, now);
      ActsLog(l1.(log := l1.log + [Notified(last.key)]), b(last.callback, now, |l1.log|));
      assert KeysOf(observers) == KeysOf(front) + [Notified(last.key)];
    }
  }

  /** The calls of one turn: its task, then every observer registered by then. */
  ghost function TurnLog(b: Behaviour, l: Loop, t: DelayedTask, now: Time): (r: seq<Event>) {
    [Ran(t)] + KeysOf(RunTask(b, l, t, now).entry.observers)
  }

  /** The calls of a whole flush: those of its turns, one after the other. */
  ghost function FlushLog(b: Behaviour, l: Loop, order: seq<DelayedTask>, now: Time): (r: seq<Event>)
    decreases |order|
  {
    if order == [] then []
    else
      var (front, last) := (order[..|order| - 1], order[|order| - 1]);
      FlushLog(b, l, front, now) + TurnLog(b, RunAll(b, l, front, now), last, now)
  }

  /** A turn calls its task and then the observers in ascending key order. */
  lemma RunOneLog(b: Behaviour, l: Loop, t: DelayedTask, now: Time)
    requires Sane(l) && t.target <= now
    ensures RunOne(b, l, t, now).log == l.log + TurnLog(b, l, t, now)
    ensures Sorted(RunTask(b, l, t, now).entry.observers)
  {
    var asked := l.(entry := Asked(l.entry, t, now));
    var ran := RunTask(b, l, t, now);
    CallGrows(b, asked, Ran(t), t.task, now);
    ActsLog(asked.(log := asked.log + [Ran(t)]), b(t.task, now, |l.log|));
    NotifyLog(b, ran, ran.entry.observers, now);
    assert l.log + [Ran(t)] + KeysOf(ran.entry.observers) == l.log + TurnLog(b, l, t, now);
  }

  /** The tasks among the calls. */
  function TasksOf(log: seq<Event>): (r: seq<DelayedTask>) {
    if log == [] then []
    else TasksOf(log[..|log| - 1]) + if log[|log| - 1].Ran? then [log[|log| - 1].task] else []
  }

  lemma {:induction false} TasksOfConcat(x: seq<Event>, y: seq<Event>)
    ensures TasksOf(x + y) == TasksOf(x) + TasksOf(y)
    decreases |y|
  {
    if y == [] {
      assert x + y == x;
    } else {
      TasksOfConcat(x, y[..|y| - 1]);
      assert (x + y)[..|x + y| - 1] == x + y[..|y| - 1];
    }
  }

  lemma {:induction false} NoTasksInKeys(log: seq<Event>)
    requires forall i | 0 <= i < |log| :: log[i].Notified?
    ensures TasksOf(log) == []
    decreases |log|
  {
    if log != [] { NoTasksInKeys(log[..|log| - 1]); }
  }

  lemma {:induction false} RunAllSane(b: Behaviour, l: Loop, order: seq<DelayedTask>, now: Time)
    requires Sane(l) && Turns(b, l, order, now)
    ensures Sane(RunAll(b, l, order, now))
    decreases |order|
  {
    if order != [] {
      var front, last := order[..|order| - 1], order[|order| - 1];
      RunAllSane(b, l, front, now);
      RunOneGrows(b, RunAll(b, l, front, now), last, now);
    }
  }

  lemma Regroup(x: seq<Event>, y: seq<Event>, z: seq<Event>)
    ensures x + y + z == x + (y + z)
  {
  }

  lemma TurnTasks(b: Behaviour, l: Loop, t: DelayedTask, now: Time)
    ensures TasksOf(TurnLog(b, l, t, now)) == [t]
  {
    var keys := KeysOf(RunTask(b, l, t, now).entry.observers);
    NoTasksInKeys(keys);
    TasksOfConcat([Ran(t)], keys);
    assert [Ran(t)][..0] == [];
  }

  /** The tasks called in a flush are exactly those of its turns, in order. */
  lemma {:induction false} FlushTasksExact(b: Behaviour, l: Loop, order: seq<DelayedTask>, now: Time)
    ensures TasksOf(FlushLog(b, l, order, now)) == order
    decreases |order|
  {
    if order != [] {
      var front, last := order[..|order| - 1], order[|order| - 1];
      var l1 := RunAll(b, l, front, now);
      FlushTasksExact(b, l, front, now);
      TurnTasks(b, l1, last, now);
      TasksOfConcat(FlushLog(b, l, front, now), TurnLog(b, l1, last, now));
    }
  }

  /**
    The log of a flush is that of its turns in order: exactly the tasks of `order`, each
    followed by the observers registered when it had run.
  */
  lemma {:induction false} RunAllLog(b: Behaviour, l: Loop, order: seq<DelayedTask>, now: Time)
    requires Sane(l) && Turns(b, l, order, now)
    ensures RunAll(b, l, order, now).log == l.log + FlushLog(b, l, order, now)
    ensures TasksOf(FlushLog(b, l, order, now)) == order
    decreases |order|
  {
    FlushTasksExact(b, l, order, now);
    if order == [] {
      assert l.log + [] == l.log;
    } else {
      var front, last := order[..|order| - 1], order[|order| - 1];
      RunAllLog(b, l, front, now);
      RunAllSane(b, l, front, now);
      var l1 := RunAll(b, l, front, now);
      RunOneLog(b, l1, last, now);
      Regroup(l.log, FlushLog(b, l, front, now), TurnLog(b, l1, last, now));
    }
  }

  datatype FlushType = Single | All

  /** Before a wake-up other threads may have acted on the loop. */
  datatype Wake = Wake(arrivals: seq<Action>, now: Time)

  /** The loop after a full flush at `now` that ran `order`. */
  ghost predicate Flushed(b: Behaviour, l: Loop, order: seq<DelayedTask>, now: Time) {
    Turns(b, l, order, now) && Due(RunAll(b, l, order, now), now) == {}
  }

  /** From here on every flush of the run comes to an end. */
  ghost predicate RunEnds(b: Behaviour, l: Loop, wakes: seq<Wake>)
    decreases |wakes|
  {
    wakes == [] ||
    var l1 := Acts(l, wakes[0].arrivals);
    && Ends(b, l1, wakes[0].now)
    && forall order | Flushed(b, l1, order, wakes[0].now) ::
         RunEnds(b, AskInVain(RunAll(b, l1, order, wakes[0].now)), wakes[1..])
  }

  // ----- What a run does

  /** The loop after a wake-up that ran `order`. */
  ghost function Woken(b: Behaviour, l: Loop, w: Wake, order: seq<DelayedTask>): (r: Loop) {
    AskInVain(RunAll(b, Acts(l, w.arrivals), order, w.now))
  }

  /** The loop after all wake-ups, the i-th of which ran `orders[i]`. */
  ghost function AfterWakes(b: Behaviour, l: Loop, wakes: seq<Wake>, orders: seq<seq<DelayedTask>>): (r: Loop)
    requires |orders| == |wakes|
    decreases |wakes|
  {
    if wakes == [] then l
    else
      var n := |wakes| - 1;
      Woken(b, AfterWakes(b, l, wakes[..n], orders[..n]), wakes[n], orders[n])
  }

  /** Each wake-up flushes the loop that what other threads did before it and the wake-ups before it leave. */
  ghost predicate AllFlushed(b: Behaviour, l: Loop, wakes: seq<Wake>, orders: seq<seq<DelayedTask>>)
    requires |orders| == |wakes|
    decreases |wakes|
  {
    wakes == [] ||
    var n := |wakes| - 1;
    && AllFlushed(b, l, wakes[..n], orders[..n])
    && Flushed(b, Acts(AfterWakes(b, l, wakes[..n], orders[..n]), wakes[n].arrivals), orders[n], wakes[n].now)
  }

  /** What the wake-ups call: what each flush does, one after the other. */
  ghost function WakesLog(b: Behaviour, l: Loop, wakes: seq<Wake>, orders: seq<seq<DelayedTask>>): (r: seq<Event>)
    requires |orders| == |wakes|
    decreases |wakes|
  {
    if wakes == [] then []
    else
      var n := |wakes| - 1;
      var l1 := Acts(AfterWakes(b, l, wakes[..n], orders[..n]), wakes[n].arrivals);
      WakesLog(b, l, wakes[..n], orders[..n]) + FlushLog(b, l1, orders[n], wakes[n].now)
  }

  lemma WakesAppend(
      b: Behaviour, l: Loop, wakes: seq<Wake>, orders: seq<seq<DelayedTask>>, w: Wake, order: seq<DelayedTask>, l': Loop)
    requires |orders| == |wakes| && AllFlushed(b, l, wakes, orders) && l' == AfterWakes(b, l, wakes, orders)
    requires Flushed(b, Acts(l', w.arrivals), order, w.now)
    ensures AllFlushed(b, l, wakes + [w], orders + [order])
    ensures AfterWakes(b, l, wakes + [w], orders + [order]) == Woken(b, l', w, order)
    ensures WakesLog(b, l, wakes + [w], orders + [order]) ==
              WakesLog(b, l, wakes, orders) + FlushLog(b, Acts(l', w.arrivals), order, w.now)
  {
    assert (wakes + [w])[..|wakes|] == wakes && (orders + [order])[..|wakes|] == orders;
  }

  class MessageLoop {
    const queues: TaskQueues
    const id: Id
    const behaviour: Behaviour
    var terminated: bool
    var calls: nat
    ghost var log: seq<Event>

    /** The loop's queue exists, has its wakeable, and is not the reserved one. */
    ghost predicate Valid()
      reads this, queues
    {
      && id in queues.entries && id != queues.unmerged && queues.entries[id].hasWakeable
      && Sane(View()) && calls == |log|
    }

    ghost function View(): (r: Loop)
      requires id in queues.entries
      reads this, queues
    {
      Loop(queues.entries[id], queues.registrations, terminated, log)
    }

    constructor (queues: TaskQueues, behaviour: Behaviour)
      requires queues.idCounter != queues.unmerged
      modifies queues
      ensures this.queues == queues && this.behaviour == behaviour && id == old(queues.idCounter)
      ensures Valid() && View() == Loop(NEW_ENTRY.(hasWakeable := true), queues.registrations, false, [])
      ensures queues.entries - {id} == old(queues.entries) - {id}
    {
      this.queues, this.behaviour := queues, behaviour;
      terminated, calls, log := false, 0, [];
      var newId := queues.CreateTaskQueue();
      id := newId;
      queues.SetWakeable(newId);
    }

    /** Queues a task, unless the loop was terminated. */
    method PostTask(task: RealTask, target: Time)
      requires Valid()
      modifies queues
      ensures Valid() && View() == Posted(old(View()), task, target)
    {
      if terminated { return; }
      ghost var pending := queues.entries[id].pending;
      ghost var t := DelayedTask(queues.registrations, task, target);
      ghost var top := queues.RegisterTask(id, task, target);
      TopIsEarliest(pending + {t}, top);
    }

    method AddTaskObserver(key: int, callback: Task)
      requires Valid()
      modifies queues
      ensures Valid()
      ensures View() == Act(old(View()), Observe(key, callback))
    {
      if callback != Null {
        InsertExact(queues.entries[id].observers, key, callback);
        queues.AddTaskObserver(id, key, callback);
      }
    }

    method DoTerminate()
      requires Valid()
      modifies this
      ensures Valid() && terminated
      ensures View() == old(View()).(terminated := true) == Act(old(View()), Terminate)
    {
      terminated := true;
    }

    method Perform(actions: seq<Action>)
      requires Valid()
      modifies this, queues
      ensures Valid() && View() == Acts(old(View()), actions) && calls == old(calls)
    {
      ghost var start := View();
      for i := 0 to |actions|
        invariant Valid() && View() == Acts(start, actions[..i]) && calls == old(calls)
      {
        assert actions[..i + 1][..i] == actions[..i];
        match actions[i]
        case Post(t, time) => PostTask(t, time);
        case Observe(key, callback) => AddTaskObserver(key, callback);
        case Terminate => DoTerminate();
      }
      assert actions[..|actions|] == actions;
    }

    /** A running callback performs its actions. */
    method Invoke(ghost event: Event, task: Task, now: Time)
      requires Valid()
      modifies this, queues
      ensures Valid() && View() == Call(behaviour, old(View()), event, task, now)
    {
      var actions := behaviour(task, now, calls);
      log, calls := log + [event], calls + 1;
      Perform(actions);
    }

    method NotifyObservers(now: Time)
      requires Valid()
      modifies this, queues
      ensures Valid() && View() == NotifyAll(behaviour, old(View()), old(queues.entries[id].observers), now)
    {
      ghost var start := View();
      var observers := queues.entries[id].observers;
      for i := 0 to |observers|
        invariant Valid() && View() == NotifyAll(behaviour, start, observers[..i], now)
      {
        assert observers[..i + 1][..i] == observers[..i];
        Invoke(Notified(observers[i].key), observers[i].callback, now);
      }
      assert observers[..|observers|] == observers;
    }

    /** Takes what is on top if it is due. */
    method TakeDue(now: Time) returns (task: Task, ghost top: DelayedTask)
      requires Valid()
      modifies queues
      ensures Valid()
      ensures task == Null ==> Due(old(View()), now) == {} && View() == AskInVain(old(View()))
      ensures task != Null ==>
                && IsTop(old(View()).entry.pending, top) && top.target <= now && task == top.task
                && View() == old(View()).(entry := Asked(old(View()).entry, top, now))
    {
      ghost var pending := queues.entries[id].pending;
      task, top := queues.GetNextTaskToRun(id, now);
      if pending != {} {
        TopIsEarliest(pending, top);
      }
    }

    /** One turn of the flush loop: asks for a due task and, if there is one, runs it and the observers. */
    method Turn(now: Time) returns (ran: bool, ghost top: DelayedTask)
      requires Valid()
      modifies this, queues
      ensures Valid()
      ensures !ran ==> View() == AskInVain(old(View())) && Due(old(View()), now) == {}
      ensures ran ==>
                && IsTop(old(View()).entry.pending, top) && top.target <= now
                && View() == RunOne(behaviour, old(View()), top, now)
    {
      var task;
      task, top := TakeDue(now);
      ran := task != Null;
      if ran {
        Invoke(Ran(top), task, now);
        NotifyObservers(now);
      }
    }

    /** The wake-up asked for last is exactly the earliest pending target. */
    ghost predicate WakesExactly()
      requires id in queues.entries
      reads this, queues
    {
      var e := queues.entries[id];
      e.pending != {} ==> e.lastWake == Some(Earliest(e.pending))
    }

    /**
      Turn after turn, until nothing is due or, for a single flush, one task ran. The
      tasks run are `order`, and `ran` is the loop right after the last of them.
    */
    method FlushTasks(kind: FlushType, now: Time) returns (ghost order: seq<DelayedTask>, ghost ran: Loop)
      requires Valid() && (kind == All ==> Ends(behaviour, View(), now))
      modifies this, queues
      ensures Valid()
      ensures Turns(behaviour, old(View()), order, now) && ran == RunAll(behaviour, old(View()), order, now)
      ensures if kind == All || order == [] then View() == AskInVain(ran) && Due(ran, now) == {} && WakesExactly()
              else View() == ran && |order| == 1
    {
      ghost var start := View();
      ghost var n: nat := 1;
      if kind == All { n :| Bounded(behaviour, start, now, n); }
      order, ran := [], start;
      var more := true;
      while more
        invariant Valid() && Turns(behaviour, start, order, now) && ran == RunAll(behaviour, start, order, now)
        invariant kind == All ==> Bounded(behaviour, start, now, n)
        invariant if more then View() == ran && (kind == Single ==> order == [])
                  else if kind == All || order == [] then View() == AskInVain(ran) && Due(ran, now) == {} && WakesExactly()
                  else View() == ran && |order| == 1
        decreases more, n - |order|
      {
        ghost var top;
        more, top := Turn(now);
        if more {
          TurnsAppend(behaviour, start, order, top, now);
          order, ran := order + [top], View();
          more := kind == All;
        }
      }
    }

    /**
      A full flush that comes to an end: each turn runs the first of the tasks due, and
      then the observers; nothing due is left, and the loop is woken at exactly the
      earliest target that is. It runs exactly the tasks that were due when it began,
      each once, if and only if nothing posted during it was due, and then in the order
      of their targets and registrations.
    */
    method RunExpiredTasksNow(now: Time) returns (ghost order: seq<DelayedTask>)
      requires Valid() && Ends(behaviour, View(), now)
      modifies this, queues
      ensures Valid() && Flushed(behaviour, old(View()), order, now)
      ensures ExactWhenLate(behaviour, old(View()), order, now)
      ensures View() == AskInVain(RunAll(behaviour, old(View()), order, now))
      ensures log == old(log) + FlushLog(behaviour, old(View()), order, now)
      ensures forall t | t in View().entry.pending :: t.target > now
      ensures WakesExactly()
    {
      ghost var start := View();
      ghost var ran;
      order, ran := FlushTasks(All, now);
      FlushExact(behaviour, start, order, now);
      RunAllLog(behaviour, start, order, now);
      AllLater(ran, now);
    }

    /** A single flush runs the first of the due tasks, if any, whatever it posts. */
    method RunSingleExpiredTaskNow(now: Time) returns (ghost order: seq<DelayedTask>)
      requires Valid()
      modifies this, queues
      ensures Valid() && (order == [] <==> Due(old(View()), now) == {})
      ensures order == [] ==> View() == AskInVain(old(View())) && WakesExactly()
      ensures order != [] ==>
                && |order| == 1 && IsTop(old(View()).entry.pending, order[0]) && order[0].target <= now
                && View() == RunOne(behaviour, old(View()), order[0], now)
    {
      ghost var start := View();
      ghost var ran;
      order, ran := FlushTasks(Single, now);
      if order != [] {
        assert order[..0] == [];
        assert order[0] in Due(start, now);
      }
    }

    /** One wake-up of a run: what other threads did before it, then a full flush. */
    method WakeUp(w: Wake, ghost wakes: seq<Wake>) returns (ghost order: seq<DelayedTask>)
      requires Valid() && wakes != [] && wakes[0] == w && RunEnds(behaviour, View(), wakes)
      modifies this, queues
      ensures Valid() && RunEnds(behaviour, View(), wakes[1..])
      ensures Flushed(behaviour, Acts(old(View()), w.arrivals), order, w.now)
      ensures View() == Woken(behaviour, old(View()), w, order)
      ensures log == old(log) + FlushLog(behaviour, Acts(old(View()), w.arrivals), order, w.now)
    {
      ghost var start := View();
      Perform(w.arrivals);
      ActsLog(start, w.arrivals);
      assert View() == Acts(start, w.arrivals);
      order := RunExpiredTasksNow(w.now);
    }

    /** Wake-up after wake-up: each acts on what those before it left, and calls what its flush calls. */
    method Run(wakes: seq<Wake>) returns (ghost orders: seq<seq<DelayedTask>>)
      requires Valid() && RunEnds(behaviour, View(), wakes)
      modifies this, queues
      ensures Valid() && |orders| == |wakes| && AllFlushed(behaviour, old(View()), wakes, orders)
      ensures View() == AfterWakes(behaviour, old(View()), wakes, orders)
      ensures log == old(log) + WakesLog(behaviour, old(View()), wakes, orders)
    {
      ghost var start := View();
      orders := [];
      for i := 0 to |wakes|
        invariant Valid() && RunEnds(behaviour, View(), wakes[i..])
        invariant |orders| == i && AllFlushed(behaviour, start, wakes[..i], orders)
        invariant View() == AfterWakes(behaviour, start, wakes[..i], orders)
        invariant log == start.log + WakesLog(behaviour, start, wakes[..i], orders)
      {
        assert wakes[i..][1..] == wakes[i + 1..] && wakes[..i] + [wakes[i]] == wakes[..i + 1];
        ghost var before := View();
        ghost var order := WakeUp(wakes[i], wakes[i..]);
        WakesAppend(behaviour, start, wakes[..i], orders, wakes[i], order, before);
        Regroup(start.log, WakesLog(behaviour, start, wakes[..i], orders),
                FlushLog(behaviour, Acts(before, wakes[i].arrivals), order, wakes[i].now));
        orders := orders + [order];
      }
      assert wakes[..|wakes|] == wakes;
    }

    /** The end of a run: a last flush, and what is left is disposed of. */
    method RunOut(last: Time) returns (ghost order: seq<DelayedTask>)
      requires Valid() && terminated
      modifies this, queues
      ensures Valid() && terminated && View().entry.pending == {}
      ensures Flushed(behaviour, old(View()), order, last)
      ensures log == old(log) + FlushLog(behaviour, old(View()), order, last)
    {
      TerminatedSettles(behaviour, View(), last);
      SettlingEnds(behaviour, View(), last);
      order := RunExpiredTasksNow(last);
      TerminatedTurns(behaviour, old(View()), order, last);
      queues.DisposeTasks(id);
    }

    /**
      Runs the loop until it is terminated, flushing at each of the times it is woken,
      then flushes what is due on the terminated loop and disposes of the rest. What is
      called is what the flushes call, in that order, and nothing else.
    */
    method DoRun(wakes: seq<Wake>, last: Time)
        returns (ghost orders: seq<seq<DelayedTask>>, ghost order: seq<DelayedTask>)
      requires Valid() && (!terminated ==> RunEnds(behaviour, View(), wakes))
      modifies this, queues
      ensures Valid() && terminated
      ensures old(terminated) ==> View() == old(View())
      ensures !old(terminated) ==>
                && View().entry.pending == {}
                && |orders| == |wakes| && AllFlushed(behaviour, old(View()), wakes, orders)
                && var l := AfterWakes(behaviour, old(View()), wakes, orders).(terminated := true);
                   && Flushed(behaviour, l, order, last)
                   && log == old(log) + WakesLog(behaviour, old(View()), wakes, orders) + FlushLog(behaviour, l, order, last)
    {
      orders, order := [], [];
      if terminated { return; }
      orders := Run(wakes);
      terminated := true;
      order := RunOut(last);
    }
  }

  // ----- A flush that does not end

  /** A loop whose due tasks are all the callback `c`, with no observers. */
  predicate OnlyDue(l: Loop, c: Task, now: Time) {
    !l.terminated && l.entry.observers == [] && Due(l, now) != {} && forall t | t in Due(l, now) :: t.task == c
  }

  lemma ReposterTurn(b: Behaviour, l: Loop, c: RealTask, t: DelayedTask, now: Time)
    requires OnlyDue(l, c, now) && IsTop(l.entry.pending, t) && t.target <= now
    requires b(c, now, |l.log|) == [Post(c, now)]
    ensures OnlyDue(RunOne(b, l, t, now), c, now) && |RunOne(b, l, t, now).log| == |l.log| + 1
  {
    assert t in Due(l, now);
    var asked := l.(entry := Asked(l.entry, t, now), log := l.log + [Ran(t)]);
    var actions := b(c, now, |l.log|);
    assert actions[..0] == [];
    var l' := Act(asked, Post(c, now));
    assert Acts(asked, actions) == l';
    assert DelayedTask(l.registrations, c, now) in Due(l', now);
  }

  /**
    When the due tasks are a callback that posts itself for now whenever it is called,
    then for every `n` there are `n` turns after which there still is something due, on a
    loop that was not terminated.
  */
  lemma {:induction false} SelfPostingNeverDrains(b: Behaviour, l: Loop, c: RealTask, now: Time, n: nat)
      returns (order: seq<DelayedTask>)
    requires OnlyDue(l, c, now)
    requires forall k: nat :: b(c, now, k) == [Post(c, now)]
    ensures |order| == n && Turns(b, l, order, now)
    ensures OnlyDue(RunAll(b, l, order, now), c, now)
  {
    if n == 0 {
      order := [];
    } else {
      var front := SelfPostingNeverDrains(b, l, c, now, n - 1);
      var l1 := RunAll(b, l, front, now);
      var t := TopExists(l1.entry.pending);
      var u :| u in Due(l1, now);
      assert u in l1.entry.pending;
      ReposterTurn(b, l1, c, t, now);
      TurnsAppend(b, l, front, t, now);
      order := front + [t];
    }
  }

  lemma SelfPostingNeverEnds(b: Behaviour, l: Loop, c: RealTask, now: Time)
    requires OnlyDue(l, c, now)
    requires forall k: nat :: b(c, now, k) == [Post(c, now)]
    ensures !Ends(b, l, now)
  {
    forall n: nat
      ensures !Bounded(b, l, now, n)
    {
      var order := SelfPostingNeverDrains(b, l, c, now, n + 1);
    }
  }

  /** Posting to a terminated loop adds nothing, whatever is posted. */
  lemma {:induction false} PostAfterTermination(l: Loop, actions: seq<Action>)
    requires l.terminated
    ensures Acts(l, actions).entry.pending == l.entry.pending && Acts(l, actions).registrations == l.registrations
    ensures Acts(l, actions).terminated
    decreases |actions|
  {
    if actions != [] { PostAfterTermination(l, actions[..|actions| - 1]); }
  }
}
