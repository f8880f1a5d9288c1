/**
  Every interleaving of the pipeline's atomic steps, over any number of threads
  and continuation objects.
*/
module PipelineRuns {
  import opened PipelineCore

  // ----- Sums over sequences

  ghost function Sum<T>(s: seq<T>, f: T -> int): (r: int) {
    if s == [] then 0 else Sum(s[..|s| - 1], f) + f(s[|s| - 1])
  }

  lemma {:induction false} SumUpdate<T>(s: seq<T>, f: T -> int, i: nat, x: T)
    requires i < |s|
    ensures Sum(s[i := x], f) == Sum(s, f) - f(s[i]) + f(x)
  {
    var n := |s| - 1;
    if i < n {
      SumUpdate(s[..n], f, i, x);
      assert s[i := x][..n] == s[..n][i := x];
    } else {
      assert s[i := x][..n] == s[..n];
    }
  }

  lemma SumAppend<T>(s: seq<T>, f: T -> int, x: T)
    ensures Sum(s + [x], f) == Sum(s, f) + f(x)
  {
    assert (s + [x])[..|s|] == s;
  }

  lemma {:induction false} SumNonNegative<T>(s: seq<T>, f: T -> int)
    requires forall x | x in s :: f(x) >= 0
    ensures Sum(s, f) >= 0
    ensures forall x | x in s :: f(x) <= Sum(s, f)
  {
    if s != [] { SumNonNegative(s[..|s| - 1], f); }
  }

  lemma {:induction false} SumZero<T>(s: seq<T>, f: T -> int)
    requires forall x | x in s :: f(x) == 0
    ensures Sum(s, f) == 0
  {
    if s != [] { SumZero(s[..|s| - 1], f); }
  }

  // ----- Threads, objects, states

  /** Where a thread stands inside a call; reservations are numbered from 0. */
  datatype PC =
    | Idle
    | Reserved(rid: nat, kind: Kind)                       // took a slot, not yet counted
    | Committing(rid: nat, kind: Kind, resource: Resource) // entered a commit
    | Bailing(rid: nat)                                    // saw a non-empty queue, slot not yet freed
    | Pushed(rid: nat)                                     // queued, not yet announced
    | Claimed                                              // passed the semaphore, not yet popped
    | Popped(item: Item)                                   // popped, slot not yet freed
    | Freed                                                // freed the slot, not yet counted

  /** A continuation object: destroyed, empty, or holding a reservation. */
  datatype Obj = Dead | Empty | Holding(rid: nat, kind: Kind)

  /** The shared memory, the threads, the continuation objects, and the history of the run. */
  datatype State = State(
    core: Core, pcs: seq<PC>, objs: seq<Obj>,
    made: nat,                // reservations so far
    tried: multiset<nat>,     // commit attempts, by reservation
    committed: seq<Item>, consumed: seq<Item>, bails: nat)

  function Init(depth: nat, threads: nat): (r: State) {
    State(Fresh(depth), seq(threads, _ => Idle), [], 0, multiset{}, [], [], 0)
  }

  datatype Step =
    | ProduceWait(t: nat, kind: Kind)
    | ProduceCount(t: nat)
    | MoveConstruct(o: nat)
    | MoveAssign(o: nat, p: nat)
    | CompleteStart(t: nat, o: nat, resource: Resource)
    | DestroyStart(t: nat, o: nat)
    | CommitQueue(t: nat)
    | CommitBail(t: nat)
    | CommitAnnounce(t: nat)
    | ConsumeWait(t: nat)
    | ConsumePop(t: nat)
    | ConsumeFree(t: nat)
    | ConsumeCount(t: nat)

  predicate Alive(s: State, o: nat) {
    o < |s.objs| && s.objs[o] != Dead
  }

  predicate Thread(s: State, t: nat) {
    t < |s.pcs|
  }

  /** May the step happen? Popping an empty deque would be undefined, so it is not a step. */
  predicate Enabled(s: State, step: Step) {
    match step
    case ProduceWait(t, _) => Thread(s, t) && s.pcs[t] == Idle
    case ProduceCount(t) => Thread(s, t) && s.pcs[t].Reserved?
    case MoveConstruct(o) => Alive(s, o)
    case MoveAssign(o, p) => Alive(s, o) && Alive(s, p)
    case CompleteStart(t, o, _) => Thread(s, t) && s.pcs[t] == Idle && Alive(s, o)
    case DestroyStart(t, o) => Thread(s, t) && s.pcs[t] == Idle && Alive(s, o)
    case CommitQueue(t) => Thread(s, t) && s.pcs[t].Committing?
    case CommitBail(t) => Thread(s, t) && s.pcs[t].Bailing?
    case CommitAnnounce(t) => Thread(s, t) && s.pcs[t].Pushed?
    case ConsumeWait(t) => Thread(s, t) && s.pcs[t] == Idle
    case ConsumePop(t) => Thread(s, t) && s.pcs[t] == Claimed && s.core.queue != []
    case ConsumeFree(t) => Thread(s, t) && s.pcs[t].Popped?
    case ConsumeCount(t) => Thread(s, t) && s.pcs[t] == Freed
  }

  function Go(s: State, t: nat, pc: PC): (r: State)
    requires Thread(s, t)
  {
    s.(pcs := s.pcs[t := pc])
  }

  /** Object `o` gives up its reservation to a commit by thread `t` and becomes `left`. */
  function StartCommit(s: State, t: nat, o: nat, resource: Resource, left: Obj): (r: State)
    requires Thread(s, t) && Alive(s, o)
  {
    match s.objs[o]
    case Holding(rid, kind) =>
      Go(s, t, Committing(rid, kind, resource)).(objs := s.objs[o := left], tried := s.tried + multiset{rid})
    case _ => s.(objs := s.objs[o := left])
  }

  function Apply(s: State, step: Step): (r: State)
    requires Enabled(s, step)
  {
    match step
    case ProduceWait(t, kind) =>
      if s.core.empty == 0 then s.(objs := s.objs + [Empty])
      else Go(s, t, Reserved(s.made, kind)).(core := TakeSlot(s.core), made := s.made + 1)
    case ProduceCount(t) =>
      Go(s, t, Idle).(core := CountIn(s.core), objs := s.objs + [Holding(s.pcs[t].rid, s.pcs[t].kind)])
    case MoveConstruct(o) =>
      s.(objs := s.objs[o := Empty] + [s.objs[o]])
    case MoveAssign(o, p) =>
      s.(objs := s.objs[o := s.objs[p]][p := s.objs[o]])
    case CompleteStart(t, o, resource) =>
      StartCommit(s, t, o, resource, Empty)
    case DestroyStart(t, o) =>
      StartCommit(s, t, o, Null, Dead)
    case CommitQueue(t) =>
      var Committing(rid, kind, resource) := s.pcs[t];
      if Accepts(s.core, kind)
      then Go(s, t, Pushed(rid)).(core := Push(s.core, Item(rid, resource)), committed := s.committed + [Item(rid, resource)])
      else Go(s, t, Bailing(rid))
    case CommitBail(t) =>
      Go(s, t, Idle).(core := FreeSlot(s.core), bails := s.bails + 1)
    case CommitAnnounce(t) =>
      Go(s, t, Idle).(core := Announce(s.core))
    case ConsumeWait(t) =>
      if s.core.available == 0 then s else Go(s, t, Claimed).(core := Claim(s.core))
    case ConsumePop(t) =>
      var item := s.core.queue[0];
      Go(s, t, Popped(item)).(core := Pop(s.core), consumed := s.consumed + [item])
    case ConsumeFree(t) =>
      Go(s, t, Freed).(core := FreeSlot(s.core))
    case ConsumeCount(t) =>
      Go(s, t, Idle).(core := CountOut(s.core))
  }

  // ----- The invariants

  /** A thread holds a slot that is neither in the queue nor in an object. */
  const SLOT: PC -> int := (pc: PC) => if pc.Reserved? || pc.Committing? || pc.Bailing? || pc.Popped? then 1 else 0
  const HELD: Obj -> int := (o: Obj) => if o.Holding? then 1 else 0
  const UNANNOUNCED: PC -> int := (pc: PC) => if pc.Pushed? then 1 else 0
  const CLAIMED: PC -> int := (pc: PC) => if pc == Claimed then 1 else 0
  const UNCOUNTED: PC -> int := (pc: PC) => if pc.Reserved? then 1 else if pc == Freed then -1 else 0

  /** Slot conservation: every slot is free, reserved, queued, or popped and not yet freed. */
  ghost predicate Slots(s: State) {
    s.core.depth == s.core.empty + Sum(s.pcs, SLOT) + Sum(s.objs, HELD) + |s.core.queue|
  }

  /** Every queued item is announced, about to be announced, or already claimed. */
  ghost predicate Items(s: State) {
    |s.core.queue| == s.core.available + Sum(s.pcs, UNANNOUNCED) + Sum(s.pcs, CLAIMED)
  }

  /** The in-flight counter: slots in use plus every bail so far, up to threads about to count. */
  ghost predicate Inflight(s: State) {
    s.core.inflight == s.core.depth - s.core.empty + s.bails - Sum(s.pcs, UNCOUNTED)
  }

  /** First in, first out. */
  predicate Fifo(s: State) {
    s.committed == s.consumed + s.core.queue
  }

  function PcHas(rid: nat): (r: PC -> int) {
    (pc: PC) => if pc.Reserved? && pc.rid == rid then 1 else 0
  }

  function ObjHas(rid: nat): (r: Obj -> int) {
    (o: Obj) => if o.Holding? && o.rid == rid then 1 else 0
  }

  /** A reservation was attempted once, or it waits in exactly one place and was not attempted. */
  ghost predicate Once(s: State, rid: nat) {
    s.tried[rid] + Sum(s.pcs, PcHas(rid)) + Sum(s.objs, ObjHas(rid)) == if rid < s.made then 1 else 0
  }

  ghost predicate OnceEach(s: State) {
    forall rid: nat :: Once(s, rid)
  }

  ghost predicate Inv(s: State) {
    Slots(s) && Items(s) && Inflight(s) && Fifo(s) && OnceEach(s)
  }

  // ----- Every step keeps them

  /** How a weight on threads changes in a step. */
  lemma PcSum(s: State, step: Step, f: PC -> int)
    requires Enabled(s, step)
    ensures var s' := Apply(s, step);
            if step.MoveConstruct? || step.MoveAssign? then s'.pcs == s.pcs
            else Sum(s'.pcs, f) == Sum(s.pcs, f) - f(s.pcs[step.t]) + f(s'.pcs[step.t])
  {
    if !(step.MoveConstruct? || step.MoveAssign?) {
      var s' := Apply(s, step);
      SumUpdate(s.pcs, f, step.t, s'.pcs[step.t]);
      assert s'.pcs == s.pcs[step.t := s'.pcs[step.t]];
    }
  }

  /** How a weight on continuation objects changes in a step. */
  lemma ObjSum(s: State, step: Step, f: Obj -> int)
    requires Enabled(s, step) && f(Empty) == 0 && f(Dead) == 0
    ensures var s' := Apply(s, step);
            Sum(s'.objs, f) == Sum(s.objs, f) + (
              if step.ProduceCount? then f(Holding(s.pcs[step.t].rid, s.pcs[step.t].kind))
              else if step.CompleteStart? || step.DestroyStart? then -f(s.objs[step.o])
              else 0)
  {
    match step
    case ProduceWait(t, kind) => SumAppend(s.objs, f, Empty);
    case ProduceCount(t) => SumAppend(s.objs, f, Holding(s.pcs[t].rid, s.pcs[t].kind));
    case MoveConstruct(o) =>
      SumUpdate(s.objs, f, o, Empty);
      SumAppend(s.objs[o := Empty], f, s.objs[o]);
    case MoveAssign(o, p) =>
      SumUpdate(s.objs, f, o, s.objs[p]);
      SumUpdate(s.objs[o := s.objs[p]], f, p, s.objs[o]);
    case CompleteStart(t, o, _) => SumUpdate(s.objs, f, o, Empty);
    case DestroyStart(t, o) => SumUpdate(s.objs, f, o, Dead);
    case _ =>
  }

  lemma StepSlots(s: State, step: Step)
    requires Enabled(s, step) && Slots(s)
    ensures Slots(Apply(s, step))
  {
    PcSum(s, step, SLOT);
    ObjSum(s, step, HELD);
    match step
    case ProduceWait(t, _) =>
    case ProduceCount(t) =>
    case MoveConstruct(o) =>
    case MoveAssign(o, p) =>
    case CompleteStart(t, o, _) =>
    case DestroyStart(t, o) =>
    case CommitQueue(t) =>
    case CommitBail(t) =>
    case CommitAnnounce(t) =>
    case ConsumeWait(t) =>
    case ConsumePop(t) =>
    case ConsumeFree(t) =>
    case ConsumeCount(t) =>
  }

  lemma StepItems(s: State, step: Step)
    requires Enabled(s, step) && Items(s)
    ensures Items(Apply(s, step))
  {
    PcSum(s, step, UNANNOUNCED);
    PcSum(s, step, CLAIMED);
  }

  lemma StepInflight(s: State, step: Step)
    requires Enabled(s, step) && Inflight(s)
    ensures Inflight(Apply(s, step))
  {
    PcSum(s, step, UNCOUNTED);
  }

  lemma StepFifo(s: State, step: Step)
    requires Enabled(s, step) && Fifo(s)
    ensures Fifo(Apply(s, step))
  {
    if step.ConsumePop? {
      assert s.core.queue == [s.core.queue[0]] + s.core.queue[1..];
    }
  }

  lemma StepOnce(s: State, step: Step, rid: nat)
    requires Enabled(s, step) && Once(s, rid)
    ensures Once(Apply(s, step), rid)
  {
    PcSum(s, step, PcHas(rid));
    ObjSum(s, step, ObjHas(rid));
    match step
    case ProduceWait(t, _) =>
    case ProduceCount(t) =>
    case MoveConstruct(o) =>
    case MoveAssign(o, p) =>
    case CompleteStart(t, o, _) =>
    case DestroyStart(t, o) =>
    case CommitQueue(t) =>
    case CommitBail(t) =>
    case CommitAnnounce(t) =>
    case ConsumeWait(t) =>
    case ConsumePop(t) =>
    case ConsumeFree(t) =>
    case ConsumeCount(t) =>
  }

  lemma StepInv(s: State, step: Step)
    requires Enabled(s, step) && Inv(s)
    ensures Inv(Apply(s, step))
  {
    StepSlots(s, step);
    StepItems(s, step);
    StepInflight(s, step);
    StepFifo(s, step);
    forall rid: nat
      ensures Once(Apply(s, step), rid)
    {
      StepOnce(s, step, rid);
    }
  }

  lemma InitInv(depth: nat, threads: nat)
    ensures Inv(Init(depth, threads))
  {
    var s := Init(depth, threads);
    SumZero(s.pcs, SLOT);
    SumZero(s.pcs, UNANNOUNCED);
    SumZero(s.pcs, CLAIMED);
    SumZero(s.pcs, UNCOUNTED);
    forall rid: nat
      ensures Once(s, rid)
    {
      SumZero(s.pcs, PcHas(rid));
    }
  }

  // ----- Whole runs

  /** `run` leads from `from` to `s`. */
  predicate Leads(from: State, run: seq<Step>, s: State)
    decreases run
  {
    if run == [] then s == from
    else Enabled(from, run[0]) && Leads(Apply(from, run[0]), run[1..], s)
  }

  /** `s` is reached from a new pipeline by the steps of `run`. */
  predicate Reached(depth: nat, threads: nat, run: seq<Step>, s: State) {
    Leads(Init(depth, threads), run, s)
  }

  lemma {:induction false} LeadsInv(from: State, run: seq<Step>, s: State)
    requires Inv(from) && Leads(from, run, s)
    ensures Inv(s) && s.core.depth == from.core.depth
    decreases run
  {
    if run != [] {
      StepInv(from, run[0]);
      LeadsInv(Apply(from, run[0]), run[1..], s);
    }
  }

  lemma ReachedInv(depth: nat, threads: nat, run: seq<Step>, s: State)
    requires Reached(depth, threads, run, s)
    ensures Inv(s) && s.core.depth == depth
  {
    InitInv(depth, threads);
    LeadsInv(Init(depth, threads), run, s);
  }

  /** In every run the queue never exceeds the depth, and no slot is created. */
  lemma BoundedQueue(depth: nat, threads: nat, run: seq<Step>, s: State)
    requires Reached(depth, threads, run, s)
    ensures s.core.empty + |s.core.queue| <= depth && s.core.available <= |s.core.queue|
  {
    ReachedInv(depth, threads, run, s);
    SumNonNegative(s.pcs, SLOT);
    SumNonNegative(s.objs, HELD);
    SumNonNegative(s.pcs, UNANNOUNCED);
    SumNonNegative(s.pcs, CLAIMED);
  }

  /** In every run a consumer that passed the semaphore finds an item: no thread gets stuck popping. */
  lemma PopNeverEmpty(depth: nat, threads: nat, run: seq<Step>, s: State, t: nat)
    requires Reached(depth, threads, run, s) && Thread(s, t) && s.pcs[t] == Claimed
    ensures Enabled(s, ConsumePop(t))
  {
    ReachedInv(depth, threads, run, s);
    SumNonNegative(s.pcs, UNANNOUNCED);
    SumNonNegative(s.pcs, CLAIMED);
    assert CLAIMED(s.pcs[t]) == 1;
  }

  /** In every run what was consumed is a prefix of what was committed, in order. */
  lemma ConsumedInOrder(depth: nat, threads: nat, run: seq<Step>, s: State)
    requires Reached(depth, threads, run, s)
    ensures s.consumed <= s.committed
  {
    ReachedInv(depth, threads, run, s);
  }

  /** In every run no reservation is committed twice, through any moves, swaps and destructions. */
  lemma AtMostOnce(depth: nat, threads: nat, run: seq<Step>, s: State, rid: nat)
    requires Reached(depth, threads, run, s)
    ensures s.tried[rid] <= 1
    ensures rid >= s.made ==> s.tried[rid] == 0
  {
    ReachedInv(depth, threads, run, s);
    assert Once(s, rid);
    SumNonNegative(s.pcs, PcHas(rid));
    SumNonNegative(s.objs, ObjHas(rid));
  }

  predicate Quiet(s: State) {
    && (forall t | 0 <= t < |s.pcs| :: s.pcs[t] == Idle)
    && (forall o | 0 <= o < |s.objs| :: !s.objs[o].Holding?)
  }

  /**
    Once all calls returned and no continuation holds a reservation, every
    reservation was attempted exactly once, every slot not in the queue is free
    again, everything queued is announced, and the in-flight counter exceeds the
    queue length by the number of bails.
  */
  lemma QuietBalance(depth: nat, threads: nat, run: seq<Step>, s: State)
    requires Reached(depth, threads, run, s) && Quiet(s)
    ensures forall rid: nat | rid < s.made :: s.tried[rid] == 1
    ensures s.core.empty + |s.core.queue| == depth
    ensures s.core.available == |s.core.queue|
    ensures s.core.inflight == |s.core.queue| + s.bails
  {
    ReachedInv(depth, threads, run, s);
    SumZero(s.pcs, SLOT);
    SumZero(s.objs, HELD);
    SumZero(s.pcs, UNANNOUNCED);
    SumZero(s.pcs, CLAIMED);
    SumZero(s.pcs, UNCOUNTED);
    forall rid: nat | rid < s.made
      ensures s.tried[rid] == 1
    {
      assert Once(s, rid);
      SumZero(s.pcs, PcHas(rid));
      SumZero(s.objs, ObjHas(rid));
    }
  }

  /** An if-empty commit goes in only when everything committed before it was consumed. */
  lemma IfEmptyGoesAlone(depth: nat, threads: nat, run: seq<Step>, s: State, t: nat)
    requires Reached(depth, threads, run, s)
    requires Enabled(s, CommitQueue(t)) && s.pcs[t].kind == IfEmpty
    ensures var s' := Apply(s, CommitQueue(t));
            if s.consumed == s.committed
            then s'.core.queue == [Item(s.pcs[t].rid, s.pcs[t].resource)] && s'.consumed == s.committed
            else s'.core.queue == s.core.queue && s'.committed == s.committed
  {
    ReachedInv(depth, threads, run, s);
    assert s.consumed == s.committed <==> s.core.queue == [];
  }

  // ----- The class's methods are runs

  /** A call of `Complete` that nothing interrupts has the effect the class states. */
  lemma CompleteIsRun(s: State, t: nat, o: nat, resource: Resource)
    requires Enabled(s, CompleteStart(t, o, resource)) && s.objs[o].Holding?
    ensures var (rid, kind) := (s.objs[o].rid, s.objs[o].kind);
            var s1 := Apply(s, CompleteStart(t, o, resource));
            var s2 := Apply(s1, CommitQueue(t));
            var s3 := Apply(s2, if Accepts(s.core, kind) then CommitAnnounce(t) else CommitBail(t));
            s3.core == Commit(s.core, kind, Item(rid, resource)) && s3.objs[o] == Empty && s3.pcs == s.pcs
  {
  }

  /** So has a call of `Consume` on an announced item. */
  lemma ConsumeIsRun(s: State, t: nat)
    requires Enabled(s, ConsumeWait(t)) && s.core.available > 0 && s.core.queue != []
    ensures var s1 := Apply(s, ConsumeWait(t));
            var s2 := Apply(s1, ConsumePop(t));
            var s3 := Apply(s2, ConsumeFree(t));
            var s4 := Apply(s3, ConsumeCount(t));
            s4.core == CountOut(FreeSlot(Pop(Claim(s.core)))) && s4.pcs == s.pcs
  {
  }
}
