/**
  The bounded pipeline of resources: two counting semaphores, a mutex-guarded
  deque and move-only producer continuations.

  `Core` is the memory all threads share, and the functions on it are the atomic
  steps: one semaphore operation, one counter operation, or one critical section.
  The class runs them in program order; `PipelineRuns` interleaves them over any
  number of threads.
*/
module PipelineCore {
  /** A `unique_ptr` to a resource: null, or some resource. */
  datatype Resource = Null | Pointer(id: nat)

  /** A queued resource and the trace id of the reservation it came from. */
  datatype Item = Item(trace: nat, resource: Resource)

  /** Which commit function a continuation is bound to. */
  datatype Kind = Always | IfEmpty

  datatype Core = Core(depth: nat, empty: nat, available: nat, inflight: int, queue: seq<Item>)

  datatype ConsumeResult = NoneAvailable | Done | MoreAvailable

  function Fresh(depth: nat): (r: Core) {
    Core(depth, depth, 0, 0, [])
  }

  function TakeSlot(c: Core): (r: Core)
    requires c.empty > 0
  {
    c.(empty := c.empty - 1)
  }

  function FreeSlot(c: Core): (r: Core) {
    c.(empty := c.empty + 1)
  }

  function CountIn(c: Core): (r: Core) {
    c.(inflight := c.inflight + 1)
  }

  function CountOut(c: Core): (r: Core) {
    c.(inflight := c.inflight - 1)
  }

  function Announce(c: Core): (r: Core) {
    c.(available := c.available + 1)
  }

  function Claim(c: Core): (r: Core)
    requires c.available > 0
  {
    c.(available := c.available - 1)
  }

  function Push(c: Core, item: Item): (r: Core) {
    c.(queue := c.queue + [item])
  }

  function Pop(c: Core): (r: Core)
    requires c.queue != []
  {
    c.(queue := c.queue[1..])
  }

  /** Does a commit of this kind go into the queue, or bail out? */
  predicate Accepts(c: Core, kind: Kind) {
    kind == Always || c.queue == []
  }

  function AfterPop(c: Core): (r: ConsumeResult) {
    if c.queue != [] then MoreAvailable else Done
  }

  // ----- One commit and one consume, uninterrupted

  function Commit(c: Core, kind: Kind, item: Item): (r: Core) {
    if Accepts(c, kind) then Announce(Push(c, item)) else FreeSlot(c)
  }

  class Pipeline {
    const depth: nat
    var empty: nat
    var available: nat
    var inflight: int
    var queue: seq<Item>
    var lastTraceId: nat

    ghost function View(): (r: Core)
      reads this
    {
      Core(depth, empty, available, inflight, queue)
    }

    constructor (depth: nat)
      ensures View() == Fresh(depth) && lastTraceId == 0
    {
      this.depth, empty, available, inflight, queue, lastTraceId := depth, depth, 0, 0, [], 0;
    }

    /** Reserves a slot, or hands out a continuation that does nothing. */
    method Produce(kind: Kind) returns (c: ProducerContinuation)
      modifies this
      ensures fresh(c)
      ensures if old(empty) > 0
              then View() == CountIn(TakeSlot(old(View()))) && c.pipeline == this && c.kind == kind
                   && c.traceId == lastTraceId == old(lastTraceId) + 1
              else View() == old(View()) && !c.Holds() && lastTraceId == old(lastTraceId)
    {
      if empty == 0 {
        c := new ProducerContinuation();
        return;
      }
      empty := empty - 1;
      inflight := inflight + 1;
      lastTraceId := lastTraceId + 1;
      c := new ProducerContinuation.Bound(this, kind, lastTraceId);
    }

    method ProducerCommit(resource: Resource, traceId: nat) returns (r: bool)
      modifies this
      ensures r && lastTraceId == old(lastTraceId)
      ensures View() == Commit(old(View()), Always, Item(traceId, resource))
    {
      queue := queue + [Item(traceId, resource)];
      available := available + 1;
      return true;
    }

    method ProducerCommitIfEmpty(resource: Resource, traceId: nat) returns (r: bool)
      modifies this
      ensures r <==> old(queue) == []
      ensures View() == Commit(old(View()), IfEmpty, Item(traceId, resource))
      ensures lastTraceId == old(lastTraceId)
    {
      if queue != [] {
        empty := empty + 1;
        return false;
      }
      queue := queue + [Item(traceId, resource)];
      available := available + 1;
      return true;
    }

    /** Takes the oldest resource, if one was announced, and frees its slot. */
    method Consume(hasConsumer: bool) returns (result: ConsumeResult, resource: Resource)
      requires available > 0 ==> queue != []
      modifies this
      ensures !hasConsumer || old(available) == 0 ==> result == NoneAvailable && View() == old(View())
      ensures hasConsumer && old(available) > 0 ==>
                && resource == old(queue[0]).resource
                && View() == CountOut(FreeSlot(Pop(Claim(old(View())))))
                && queue == old(queue)[1..] && available == old(available) - 1 && empty == old(empty) + 1
                && result == AfterPop(View())
                && result == if |old(queue)| > 1 then MoreAvailable else Done
      ensures lastTraceId == old(lastTraceId)
    {
      resource := Null;
      if !hasConsumer {
        return NoneAvailable, resource;
      }
      if available == 0 {
        return NoneAvailable, resource;
      }
      available := available - 1;
      resource := queue[0].resource;
      queue := queue[1..];
      var itemsCount := |queue|;
      empty := empty + 1;
      inflight := inflight - 1;
      result := if itemsCount > 0 then MoreAvailable else Done;
    }
  }

  /** A continuation: the pipeline, commit and trace id it is bound to, or nothing. */
  class ProducerContinuation {
    var pipeline: Pipeline?
    var kind: Kind
    var traceId: nat

    /** `operator bool`: is the continuation bound? */
    predicate Holds()
      reads this
    {
      pipeline != null
    }

    constructor ()
      ensures !Holds() && traceId == 0
    {
      pipeline, kind, traceId := null, Always, 0;
    }

    constructor Bound(pipeline: Pipeline, kind: Kind, traceId: nat)
      ensures this.pipeline == pipeline && this.kind == kind && this.traceId == traceId
    {
      this.pipeline, this.kind, this.traceId := pipeline, kind, traceId;
    }

    /** The move constructor: the new object takes over, the old one lets go. */
    constructor Move(other: ProducerContinuation)
      modifies other
      ensures pipeline == old(other.pipeline) && kind == old(other.kind) && traceId == old(other.traceId)
      ensures !other.Holds()
    {
      pipeline, kind, traceId := other.pipeline, other.kind, other.traceId;
      new;
      other.pipeline, other.traceId := null, 0;
    }

    /** Move assignment swaps what the two objects hold, whichever pipelines they belong to. */
    method Assign(other: ProducerContinuation)
      modifies this, other
      ensures pipeline == old(other.pipeline) && kind == old(other.kind) && traceId == old(other.traceId)
      ensures other.pipeline == old(pipeline) && other.kind == old(kind) && other.traceId == old(traceId)
    {
      var p, k, t := pipeline, kind, traceId;
      pipeline, kind, traceId := other.pipeline, other.kind, other.traceId;
      other.pipeline, other.kind, other.traceId := p, k, t;
    }

    /** Commits at most once: the first call on a held reservation, and never again. */
    method Complete(resource: Resource) returns (r: bool)
      modifies this, pipeline
      ensures !Holds()
      ensures old(pipeline) != null ==>
                && r == Accepts(old(pipeline.View()), old(kind))
                && old(pipeline).View() == Commit(old(pipeline.View()), old(kind), Item(old(traceId), resource))
      ensures old(pipeline) == null ==> !r
    {
      r := false;
      if pipeline != null {
        if kind == Always {
          r := pipeline.ProducerCommit(resource, traceId);
        } else {
          r := pipeline.ProducerCommitIfEmpty(resource, traceId);
        }
        pipeline := null;
      }
    }

    /** The destructor commits a null resource for a reservation nobody completed. */
    method Destroy()
      modifies this, pipeline
      ensures !Holds()
      ensures old(pipeline) != null ==>
                old(pipeline).View() == Commit(old(pipeline.View()), old(kind), Item(old(traceId), Null))
    {
      var r := Complete(Null);
    }
  }
}
