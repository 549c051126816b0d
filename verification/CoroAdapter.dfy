/** The completion-queue poller (src/core/coro/coro_adapter.cpp, coro_adapter.h): which side owns which context, and who
    frees it. Contexts are cells of a memory; touching a freed one is an error that the proofs rule out. */
module CoroAdapters {

  datatype ContextType = ASYNC_UNARY | STREAM_OP

  datatype Status = OK | CANCELLED

  /** An `AsyncContext` on the heap, or a `StreamContext` inside its awaiter. */
  datatype Context = Context(kind: ContextType, ok: bool, status: Status)

  /** What a resumed coroutine reads from the context it awaited. */
  function Outcome(context: Context): bool {
    if context.kind == ASYNC_UNARY then context.status == OK else context.ok
  }

  /** The address of a context, handed to the queue as a tag. */
  type Tag = nat
  const NULL: Tag := 0

  datatype Event =
    | Started(tag: Tag, kind: ContextType)
    | Dequeued(tag: Tag)
    | Resumed(tag: Tag, ok: bool)  // with the outcome that the coroutine then reads
    | Freed(tag: Tag)

  /** An operation that a coroutine awaits; a unary one may fail to start. */
  datatype Op = Op(kind: ContextType, throws: bool)

  /** What one look at the queue yields: a tag, with the fate of its coroutine - whether it can still be resumed and what
      it starts when it is - or nothing, or the news of the shutdown. Other threads start operations meanwhile. */
  datatype Poll =
    | Got(started: seq<Op>, tag: Tag, ok: bool, resumable: bool, starts: seq<Op>)
    | TimedOut(started: seq<Op>)
    | ShutDown(started: seq<Op>)

  /** What happened to one context, in order. */
  function Life(log: seq<Event>, tag: Tag): seq<Event> {
    if log == [] then []
    else Life(log[..|log| - 1], tag) + if log[|log| - 1].tag == tag then [log[|log| - 1]] else []
  }

  lemma LifeExtends(log: seq<Event>, e: Event, tag: Tag)
    ensures Life(log + [e], tag) == Life(log, tag) + if e.tag == tag then [e] else []
  {
    assert (log + [e])[..|log|] == log;
  }

  /** The whole life of a context that was delivered: resumed at most once, with the outcome the queue reported, and then
      freed exactly once if it is unary, never if it belongs to a stream. */
  function Delivered(tag: Tag, kind: ContextType, ok: bool, resumable: bool): seq<Event> {
    [Started(tag, kind), Dequeued(tag)]
    + (if resumable then [Resumed(tag, ok)] else [])
    + (if kind == ASYNC_UNARY then [Freed(tag)] else [])
  }

  /** A finished life: delivered, or freed at once because the operation did not start. */
  ghost predicate Finished(life: seq<Event>, tag: Tag, kind: ContextType) {
    || (exists ok, resumable :: life == Delivered(tag, kind, ok, resumable))
    || (kind == ASYNC_UNARY && life == [Started(tag, kind), Freed(tag)])
  }

  /** A finished unary context was freed once, as the last thing that happened to it, and a finished stream context
      never; neither was resumed twice. */
  ghost predicate FreedOnce(life: seq<Event>, kind: ContextType) {
    && (forall i | 0 <= i < |life| :: life[i].Freed? <==> kind == ASYNC_UNARY && i == |life| - 1)
    && (forall i, j | 0 <= i < j < |life| :: !(life[i].Resumed? && life[j].Resumed?))
    && (kind == ASYNC_UNARY ==> life != [])
  }

  lemma FinishedFreesOnce(life: seq<Event>, tag: Tag, kind: ContextType)
    requires Finished(life, tag, kind)
    ensures FreedOnce(life, kind)
  {
  }

  // --- Ownership -------------------------------------------------------------------------------

  /** The adapter's state: memory, queue, the next fresh address, the kind of every context started, and the log. */
  datatype Pool = Pool(
    memory: map<Tag, Context>,
    queue: set<Tag>,
    nextTag: Tag,
    kinds: map<Tag, ContextType>,
    log: seq<Event>)

  /** A new operation: its context is queued, or freed at once if the operation does not start. */
  function Begin(p: Pool, op: Op): Pool {
    var tag := p.nextTag;
    if op.kind == ASYNC_UNARY && op.throws then
      Pool(p.memory - {tag}, p.queue, tag + 1, p.kinds[tag := ASYNC_UNARY],
           p.log + [Started(tag, ASYNC_UNARY)] + [Freed(tag)])
    else
      Pool(p.memory[tag := Context(op.kind, false, OK)], p.queue + {tag}, tag + 1, p.kinds[tag := op.kind],
           p.log + [Started(tag, op.kind)])
  }

  function BeginAll(p: Pool, ops: seq<Op>): Pool {
    if ops == [] then p else Begin(BeginAll(p, ops[..|ops| - 1]), ops[|ops| - 1])
  }

  function Written(context: Context, ok: bool): Context {
    if context.kind == STREAM_OP then context.(ok := ok)
    else context.(ok := ok, status := if ok then OK else CANCELLED)
  }

  /** The delivery of a context: written, its coroutine resumed if there is one left, and freed if unary. */
  function Deliver(p: Pool, tag: Tag, ok: bool, resumable: bool, starts: seq<Op>): Pool
    requires tag in p.memory
  {
    var written := p.(memory := p.memory[tag := Written(p.memory[tag], ok)]);
    var resumed := if resumable then var q := BeginAll(written, starts); q.(log := q.log + [Resumed(tag, ok)]) else written;
    if p.memory[tag].kind == ASYNC_UNARY then
      resumed.(memory := resumed.memory - {tag}, log := resumed.log + [Freed(tag)])
    else if resumable then resumed.(memory := resumed.memory - {tag})
    else resumed
  }

  /** One look at the queue, after what other threads have started: delivers a queued tag, or finds none. */
  function Look(p: Pool, poll: Poll): (Pool, bool) {
    var q := BeginAll(p, poll.started);
    if poll.Got? && poll.tag in q.queue && poll.tag in q.memory then
      var taken := q.(queue := q.queue - {poll.tag}, log := q.log + [Dequeued(poll.tag)]);
      (Deliver(taken, poll.tag, poll.ok, poll.resumable, poll.starts), true)
    else (q, false)
  }

  function Drain(p: Pool, polls: seq<Poll>): Pool
    decreases |polls|
  {
    if polls == [] then p
    else
      var (q, event) := Look(p, polls[0]);
      if event then Drain(q, polls[1..]) else q
  }

  /** The poller: look after look, until a shutdown is seen and the rest is drained. */
  function PollAll(p: Pool, polls: seq<Poll>): Pool
    decreases |polls|
  {
    if polls == [] then p
    else
      var (q, event) := Look(p, polls[0]);
      if !event && polls[0].ShutDown? then Drain(q, polls[1..]) else PollAll(q, polls[1..])
  }

  /** Ownership of one context. A queued one is alive and has only been started; the one being processed - `current`,
      NULL if none - has the life `stage`; any other is finished, and if unary no longer in memory. */
  ghost predicate Owned(p: Pool, current: Tag, stage: seq<Event>, t: Tag) {
    if t !in p.kinds then t !in p.memory && t !in p.queue && Life(p.log, t) == []
    else
      && NULL < t < p.nextTag
      && (t in p.memory ==> p.memory[t].kind == p.kinds[t])
      && if t in p.queue then t != current && t in p.memory && Life(p.log, t) == [Started(t, p.kinds[t])]
         else if t == current then Life(p.log, t) == stage && (p.kinds[t] == ASYNC_UNARY ==> t in p.memory)
         else Finished(Life(p.log, t), t, p.kinds[t]) && (p.kinds[t] == ASYNC_UNARY ==> t !in p.memory)
  }

  ghost predicate AllOwned(p: Pool, current: Tag, stage: seq<Event>) {
    p.nextTag > NULL && forall t :: Owned(p, current, stage, t)
  }

  /** Between two deliveries the live unary contexts are exactly the queued ones; during one, also the current one. */
  lemma LiveUnaryContexts(p: Pool, current: Tag, stage: seq<Event>, t: Tag)
    requires AllOwned(p, current, stage) && current in p.kinds.Keys + {NULL}
    ensures t in p.memory && p.memory[t].kind == ASYNC_UNARY
       <==> t in p.kinds && p.kinds[t] == ASYNC_UNARY && (t in p.queue || t == current)
  {
    assert Owned(p, current, stage, t);
  }

  /** Every context ever dequeued, other than the current one, has finished: a unary one was freed exactly once and is
      out of memory, a stream one was never freed. */
  lemma DequeuedAreFinished(p: Pool, current: Tag, stage: seq<Event>, t: Tag)
    requires AllOwned(p, current, stage) && t in p.kinds && t !in p.queue && t != current
    ensures FreedOnce(Life(p.log, t), p.kinds[t])
    ensures p.kinds[t] == ASYNC_UNARY ==> t !in p.memory
  {
    assert Owned(p, current, stage, t);
    FinishedFreesOnce(Life(p.log, t), t, p.kinds[t]);
  }

  lemma NoteKeeps(p: Pool, e: Event, stage: seq<Event>)
    requires AllOwned(p, e.tag, stage) && e.tag in p.kinds && e.tag !in p.queue
    ensures AllOwned(p.(log := p.log + [e]), e.tag, stage + [e])
  {
    forall t ensures Owned(p.(log := p.log + [e]), e.tag, stage + [e], t) {
      assert Owned(p, e.tag, stage, t);
      LifeExtends(p.log, e, t);
    }
  }

  lemma LifeOfNew(log: seq<Event>, kind: ContextType, tag: Tag, t: Tag)
    requires Life(log, tag) == []
    ensures Life(log + [Started(tag, kind)], t) == if t == tag then [Started(tag, kind)] else Life(log, t)
    ensures Life(log + [Started(tag, kind)] + [Freed(tag)], t) ==
            if t == tag then [Started(tag, kind), Freed(tag)] else Life(log, t)
  {
    LifeExtends(log, Started(tag, kind), t);
    LifeExtends(log + [Started(tag, kind)], Freed(tag), t);
  }

  lemma BeginKeeps(p: Pool, op: Op, current: Tag, stage: seq<Event>)
    requires AllOwned(p, current, stage) && current < p.nextTag
    ensures AllOwned(Begin(p, op), current, stage)
    ensures p.nextTag !in p.kinds && p.nextTag !in p.memory && p.nextTag !in p.queue
  {
    var tag, p' := p.nextTag, Begin(p, op);
    assert Owned(p, current, stage, tag);
    forall t ensures Owned(p', current, stage, t) {
      assert Owned(p, current, stage, t);
      LifeOfNew(p.log, op.kind, tag, t);
    }
  }

  lemma DequeueKeeps(p: Pool, tag: Tag)
    requires AllOwned(p, NULL, []) && tag in p.queue
    ensures tag in p.kinds && tag in p.memory
    ensures AllOwned(p.(queue := p.queue - {tag}, log := p.log + [Dequeued(tag)]), tag,
                     [Started(tag, p.kinds[tag]), Dequeued(tag)])
  {
    assert Owned(p, NULL, [], tag);
    forall t ensures Owned(p.(queue := p.queue - {tag}, log := p.log + [Dequeued(tag)]), tag,
                           [Started(tag, p.kinds[tag]), Dequeued(tag)], t) {
      assert Owned(p, NULL, [], t);
      LifeExtends(p.log, Dequeued(tag), t);
    }
  }

  lemma WriteKeeps(p: Pool, current: Tag, stage: seq<Event>, context: Context)
    requires AllOwned(p, current, stage) && current in p.memory && context.kind == p.memory[current].kind
    ensures AllOwned(p.(memory := p.memory[current := context]), current, stage)
  {
    var p' := p.(memory := p.memory[current := context]);
    forall t ensures Owned(p', current, stage, t) {
      assert Owned(p, current, stage, t);
    }
  }

  /** The end of a delivery: a unary context leaves memory here; a stream context has left it with its awaiter, if its
      coroutine was resumed, or stays behind. */
  lemma RetireKeeps(p: Pool, current: Tag, stage: seq<Event>, drop: bool)
    requires AllOwned(p, current, stage) && current in p.kinds && current !in p.queue
    requires Finished(stage, current, p.kinds[current])
    requires p.kinds[current] == ASYNC_UNARY ==> drop
    ensures AllOwned(p.(memory := if drop then p.memory - {current} else p.memory), NULL, [])
  {
    var p' := p.(memory := if drop then p.memory - {current} else p.memory);
    forall t ensures Owned(p', NULL, [], t) {
      assert Owned(p, current, stage, t);
    }
  }

  /** Starting operations leaves the current context as it is: in memory, off the queue and unwritten. */
  lemma {:induction false} BeginAllKeeps(p: Pool, ops: seq<Op>, current: Tag, stage: seq<Event>)
    requires AllOwned(p, current, stage) && current < p.nextTag
    ensures var q := BeginAll(p, ops);
            && AllOwned(q, current, stage) && current < q.nextTag
            && (current in p.kinds ==> current in q.kinds && q.kinds[current] == p.kinds[current])
            && (current in p.memory ==> current in q.memory && q.memory[current] == p.memory[current])
            && (current !in p.queue ==> current !in q.queue)
  {
    if ops != [] {
      var init := ops[..|ops| - 1];
      BeginAllKeeps(p, init, current, stage);
      BeginKeeps(BeginAll(p, init), ops[|ops| - 1], current, stage);
    }
  }

  /** A delivery, even one whose coroutine starts more operations, finishes its own context and disturbs no other. */
  lemma DeliverKeeps(p: Pool, tag: Tag, ok: bool, resumable: bool, starts: seq<Op>)
    requires tag != NULL && tag in p.kinds && tag in p.memory && tag !in p.queue
    requires AllOwned(p, tag, [Started(tag, p.kinds[tag]), Dequeued(tag)])
    ensures AllOwned(Deliver(p, tag, ok, resumable, starts), NULL, [])
    ensures Life(Deliver(p, tag, ok, resumable, starts).log, tag) == Delivered(tag, p.kinds[tag], ok, resumable)
  {
    var kind, stage := p.kinds[tag], [Started(tag, p.kinds[tag]), Dequeued(tag)];
    assert Owned(p, tag, stage, tag);
    WriteKeeps(p, tag, stage, Written(p.memory[tag], ok));
    var q := p.(memory := p.memory[tag := Written(p.memory[tag], ok)]);
    if resumable {
      BeginAllKeeps(q, starts, tag, stage);
      q := BeginAll(q, starts);
      NoteKeeps(q, Resumed(tag, ok), stage);
      q, stage := q.(log := q.log + [Resumed(tag, ok)]), stage + [Resumed(tag, ok)];
    }
    if kind == ASYNC_UNARY {
      NoteKeeps(q, Freed(tag), stage);
      q, stage := q.(log := q.log + [Freed(tag)]), stage + [Freed(tag)];
    }
    assert stage == Delivered(tag, kind, ok, resumable);
    assert Owned(q, tag, stage, tag);
    RetireKeeps(q, tag, stage, kind == ASYNC_UNARY || resumable);
  }

  lemma LookKeeps(p: Pool, poll: Poll)
    requires AllOwned(p, NULL, [])
    ensures AllOwned(Look(p, poll).0, NULL, [])
  {
    BeginAllKeeps(p, poll.started, NULL, []);
    var q := BeginAll(p, poll.started);
    if poll.Got? && poll.tag in q.queue && poll.tag in q.memory {
      DequeueKeeps(q, poll.tag);
      assert Owned(q, NULL, [], poll.tag);
      DeliverKeeps(q.(queue := q.queue - {poll.tag}, log := q.log + [Dequeued(poll.tag)]),
                   poll.tag, poll.ok, poll.resumable, poll.starts);
    }
  }

  lemma {:induction false} DrainKeeps(p: Pool, polls: seq<Poll>)
    requires AllOwned(p, NULL, [])
    ensures AllOwned(Drain(p, polls), NULL, [])
    decreases |polls|
  {
    if polls != [] {
      LookKeeps(p, polls[0]);
      if Look(p, polls[0]).1 {
        DrainKeeps(Look(p, polls[0]).0, polls[1..]);
      }
    }
  }

  /** Ownership over every run of the poller and the final drain, whatever the queue yields and in whatever order. */
  lemma {:induction false} PollAllKeeps(p: Pool, polls: seq<Poll>)
    requires AllOwned(p, NULL, [])
    ensures AllOwned(PollAll(p, polls), NULL, [])
    decreases |polls|
  {
    if polls != [] {
      LookKeeps(p, polls[0]);
      var (q, event) := Look(p, polls[0]);
      if !event && polls[0].ShutDown? {
        DrainKeeps(q, polls[1..]);
      } else {
        PollAllKeeps(q, polls[1..]);
      }
    }
  }

  // --- What a delivery does --------------------------------------------------------------------

  /** As far as one address is concerned, nothing happened from `p` to `q`. */
  ghost predicate SameAt(p: Pool, q: Pool, t: Tag) {
    && Life(q.log, t) == Life(p.log, t)
    && (t in q.queue <==> t in p.queue) && (t in q.kinds <==> t in p.kinds)
    && (t in p.kinds ==> q.kinds[t] == p.kinds[t])
  }

  lemma BeginLeaves(p: Pool, op: Op, t: Tag)
    requires t < p.nextTag
    ensures SameAt(p, Begin(p, op), t)
  {
    LifeExtends(p.log, Started(p.nextTag, op.kind), t);
    LifeExtends(p.log + [Started(p.nextTag, op.kind)], Freed(p.nextTag), t);
  }

  /** Starting operations leaves the contexts started before alone. */
  lemma {:induction false} BeginAllLeaves(p: Pool, ops: seq<Op>, t: Tag)
    requires t < p.nextTag
    ensures BeginAll(p, ops).nextTag == p.nextTag + |ops|
    ensures SameAt(p, BeginAll(p, ops), t)
  {
    if ops != [] {
      BeginAllLeaves(p, ops[..|ops| - 1], t);
      BeginLeaves(BeginAll(p, ops[..|ops| - 1]), ops[|ops| - 1], t);
    }
  }

  /** The life of an operation that has just been started under `t`. */
  ghost predicate JustStarted(p: Pool, t: Tag, op: Op) {
    && t in p.kinds && p.kinds[t] == op.kind
    && (t in p.queue <==> !(op.kind == ASYNC_UNARY && op.throws))
    && Life(p.log, t) == if t in p.queue then [Started(t, op.kind)] else [Started(t, op.kind), Freed(t)]
  }

  lemma BeginStarts(p: Pool, op: Op, current: Tag, stage: seq<Event>)
    requires AllOwned(p, current, stage)
    ensures var q, t := Begin(p, op), p.nextTag;
            && t in q.kinds && q.kinds[t] == op.kind
            && (t in q.queue <==> !(op.kind == ASYNC_UNARY && op.throws))
            && Life(q.log, t) == if op.kind == ASYNC_UNARY && op.throws then [Started(t, op.kind), Freed(t)]
                                 else [Started(t, op.kind)]
  {
    var t := p.nextTag;
    assert Owned(p, current, stage, t);
    LifeOfNew(p.log, op.kind, t, t);
    if op.kind == ASYNC_UNARY && op.throws {
      assert Begin(p, op).log == p.log + [Started(t, op.kind)] + [Freed(t)];
    } else {
      assert Begin(p, op).log == p.log + [Started(t, op.kind)];
    }
  }

  lemma {:induction false} BeginAllCompose(p: Pool, first: seq<Op>, second: seq<Op>)
    ensures BeginAll(p, first + second) == BeginAll(BeginAll(p, first), second)
  {
    if second == [] {
      assert first + second == first;
    } else {
      var ops := first + second;
      assert ops[..|ops| - 1] == first + second[..|second| - 1];
      BeginAllCompose(p, first, second[..|second| - 1]);
    }
  }

  lemma BeginOne(p: Pool, op: Op)
    ensures BeginAll(p, [op]) == Begin(p, op)
  {
    assert [op][..0] == [];
  }

  lemma SplitAt(ops: seq<Op>, k: nat)
    requires k < |ops|
    ensures ops == ops[..k] + [ops[k]] + ops[k + 1..]
  {
  }

  /** Every operation is started under the next fresh address: its context is queued, or, if it fails to start, freed at
      once. */
  lemma StartedOps(p: Pool, ops: seq<Op>, current: Tag, stage: seq<Event>, k: nat)
    requires AllOwned(p, current, stage) && current < p.nextTag && k < |ops|
    ensures JustStarted(BeginAll(p, ops), p.nextTag + k, ops[k])
  {
    var q := BeginAll(p, ops[..k]);
    BeginAllKeeps(p, ops[..k], current, stage);
    BeginAllLeaves(p, ops[..k], current);
    BeginStarts(q, ops[k], current, stage);
    SplitAt(ops, k);
    BeginAllCompose(p, ops[..k] + [ops[k]], ops[k + 1..]);
    BeginAllCompose(p, ops[..k], [ops[k]]);
    BeginOne(q, ops[k]);
    BeginAllLeaves(Begin(q, ops[k]), ops[k + 1..], q.nextTag);
  }

  /** A look at the queue that is offered a queued tag. */
  predicate Offers(p: Pool, poll: Poll) {
    poll.Got? && poll.tag in BeginAll(p, poll.started).queue
  }

  /** A delivery starts what its coroutine starts, and does not queue its own tag again. */
  lemma DeliveryStarts(p: Pool, tag: Tag, ok: bool, resumable: bool, starts: seq<Op>)
    requires tag in p.memory && tag in p.kinds && tag < p.nextTag
    ensures var q := Deliver(p, tag, ok, resumable, starts);
            && q.nextTag == p.nextTag + (if resumable then |starts| else 0)
            && tag in q.kinds && q.kinds[tag] == p.kinds[tag] && (tag in q.queue <==> tag in p.queue)
  {
    BeginAllLeaves(p.(memory := p.memory[tag := Written(p.memory[tag], ok)]), starts, tag);
  }

  /** An offered tag is delivered, whatever its outcome: it leaves the queue, and its context has lived its whole life. A
      look that is offered none only starts what other threads start. */
  lemma LookDelivers(p: Pool, poll: Poll)
    requires AllOwned(p, NULL, [])
    ensures var (q, event) := Look(p, poll);
            && (event <==> Offers(p, poll))
            && (!event ==> q == BeginAll(p, poll.started))
            && (event ==>
                  && poll.tag !in q.queue && poll.tag in q.kinds
                  && Life(q.log, poll.tag) ==
                     [Started(poll.tag, q.kinds[poll.tag]), Dequeued(poll.tag)]
                     + (if poll.resumable then [Resumed(poll.tag, poll.ok)] else [])
                     + (if q.kinds[poll.tag] == ASYNC_UNARY then [Freed(poll.tag)] else [])
                  && q.nextTag == p.nextTag + |poll.started| + if poll.resumable then |poll.starts| else 0)
  {
    BeginAllKeeps(p, poll.started, NULL, []);
    BeginAllLeaves(p, poll.started, NULL);
    var q := BeginAll(p, poll.started);
    if Offers(p, poll) {
      DequeueKeeps(q, poll.tag);
      assert Owned(q, NULL, [], poll.tag);
      var taken := q.(queue := q.queue - {poll.tag}, log := q.log + [Dequeued(poll.tag)]);
      DeliverKeeps(taken, poll.tag, poll.ok, poll.resumable, poll.starts);
      DeliveryStarts(taken, poll.tag, poll.ok, poll.resumable, poll.starts);
    }
  }

  /** A context that has left the queue is never touched again. */
  lemma LookLeaves(p: Pool, poll: Poll, t: Tag)
    requires AllOwned(p, NULL, []) && t in p.kinds && t !in p.queue
    ensures SameAt(p, Look(p, poll).0, t)
  {
    assert Owned(p, NULL, [], t);
    BeginAllKeeps(p, poll.started, NULL, []);
    BeginAllLeaves(p, poll.started, t);
    var q := BeginAll(p, poll.started);
    if Offers(p, poll) {
      var tag := poll.tag;
      DequeueKeeps(q, tag);
      LifeExtends(q.log, Dequeued(tag), t);
      var taken := q.(queue := q.queue - {tag}, log := q.log + [Dequeued(tag)]);
      DeliverLeaves(taken, tag, poll.ok, poll.resumable, poll.starts, t);
    }
  }

  lemma DeliverLeaves(p: Pool, tag: Tag, ok: bool, resumable: bool, starts: seq<Op>, t: Tag)
    requires tag in p.memory && t < p.nextTag && t != tag
    ensures SameAt(p, Deliver(p, tag, ok, resumable, starts), t)
  {
    var written := p.(memory := p.memory[tag := Written(p.memory[tag], ok)]);
    BeginAllLeaves(written, starts, t);
    var log := BeginAll(written, starts).log;
    LifeExtends(log, Resumed(tag, ok), t);
    LifeExtends(log + [Resumed(tag, ok)], Freed(tag), t);
    LifeExtends(p.log, Freed(tag), t);
  }

  lemma {:induction false} DrainLeaves(p: Pool, polls: seq<Poll>, t: Tag)
    requires AllOwned(p, NULL, []) && t in p.kinds && t !in p.queue
    ensures SameAt(p, Drain(p, polls), t)
    decreases |polls|
  {
    if polls != [] {
      LookKeeps(p, polls[0]);
      LookLeaves(p, polls[0], t);
      if Look(p, polls[0]).1 {
        DrainLeaves(Look(p, polls[0]).0, polls[1..], t);
      }
    }
  }

  lemma {:induction false} PollAllLeaves(p: Pool, polls: seq<Poll>, t: Tag)
    requires AllOwned(p, NULL, []) && t in p.kinds && t !in p.queue
    ensures SameAt(p, PollAll(p, polls), t)
    decreases |polls|
  {
    if polls != [] {
      LookKeeps(p, polls[0]);
      LookLeaves(p, polls[0], t);
      var (q, event) := Look(p, polls[0]);
      if !event && polls[0].ShutDown? {
        DrainLeaves(q, polls[1..], t);
      } else {
        PollAllLeaves(q, polls[1..], t);
      }
    }
  }

  /** The poller goes on until a shutdown is seen, whatever it is offered before. */
  lemma {:induction false} PollAllContinues(p: Pool, before: seq<Poll>, after: seq<Poll>)
    requires forall b | b in before :: !b.ShutDown?
    ensures PollAll(p, before + after) == PollAll(PollAll(p, before), after)
    decreases |before|
  {
    if before == [] {
      assert before + after == after;
    } else {
      assert before[0] in before;
      assert (before + after)[0] == before[0] && (before + after)[1..] == before[1..] + after;
      PollAllContinues(Look(p, before[0]).0, before[1..], after);
    }
  }

  /** Every one of the looks is offered a queued tag. */
  ghost predicate AllOffered(p: Pool, polls: seq<Poll>) {
    forall i | 0 <= i < |polls| :: Offers(Drain(p, polls[..i]), polls[i])
  }

  lemma AllOfferedTail(p: Pool, polls: seq<Poll>)
    requires AllOwned(p, NULL, []) && polls != [] && AllOffered(p, polls)
    ensures Look(p, polls[0]).1 && AllOffered(Look(p, polls[0]).0, polls[1..])
  {
    assert polls[..0] == [] && Offers(Drain(p, polls[..0]), polls[0]);
    LookDelivers(p, polls[0]);
    forall i | 0 <= i < |polls[1..]| ensures Offers(Drain(Look(p, polls[0]).0, polls[1..][..i]), polls[1..][i]) {
      assert polls[..i + 1][1..] == polls[1..][..i] && polls[..i + 1][0] == polls[0];
      assert Offers(Drain(p, polls[..i + 1]), polls[i + 1]);
    }
  }

  /** The drain goes on for as long as it is offered a queued tag... */
  lemma {:induction false} DrainContinues(p: Pool, before: seq<Poll>, after: seq<Poll>)
    requires AllOwned(p, NULL, []) && AllOffered(p, before)
    ensures Drain(p, before + after) == Drain(Drain(p, before), after)
    decreases |before|
  {
    if before == [] {
      assert before + after == after;
    } else {
      assert (before + after)[0] == before[0] && (before + after)[1..] == before[1..] + after;
      AllOfferedTail(p, before);
      LookKeeps(p, before[0]);
      DrainContinues(Look(p, before[0]).0, before[1..], after);
    }
  }

  /** ... and no longer. */
  lemma DrainStops(p: Pool, before: seq<Poll>, poll: Poll, after: seq<Poll>)
    requires AllOwned(p, NULL, []) && AllOffered(p, before) && !Offers(Drain(p, before), poll)
    ensures Drain(p, before + ([poll] + after)) == BeginAll(Drain(p, before), poll.started)
  {
    DrainContinues(p, before, [poll] + after);
    DrainKeeps(p, before);
    LookDelivers(Drain(p, before), poll);
  }

  lemma DrainOneMore(p: Pool, polls: seq<Poll>, i: nat)
    requires AllOwned(p, NULL, []) && i < |polls| && AllOffered(p, polls[..i]) && Offers(Drain(p, polls[..i]), polls[i])
    ensures AllOffered(p, polls[..i + 1]) && Drain(p, polls[..i + 1]) == Look(Drain(p, polls[..i]), polls[i]).0
  {
    var upTo := polls[..i + 1];
    forall j | 0 <= j < |upTo| ensures Offers(Drain(p, upTo[..j]), upTo[j]) {
      assert upTo[..j] == polls[..j];
      if j < i {
        assert polls[..i][..j] == polls[..j] && polls[..i][j] == polls[j];
        assert Offers(Drain(p, polls[..i][..j]), polls[..i][j]);
      }
    }
    assert polls[..i + 1] == polls[..i] + [polls[i]] && [polls[i]][1..] == [];
    DrainContinues(p, polls[..i], [polls[i]]);
  }

  /** A shutdown seen ends the poller with a drain. */
  lemma ShutDownDrains(p: Pool, before: seq<Poll>, started: seq<Op>, after: seq<Poll>)
    requires AllOwned(p, NULL, []) && forall b | b in before :: !b.ShutDown?
    ensures PollAll(p, before + ([ShutDown(started)] + after)) == Drain(BeginAll(PollAll(p, before), started), after)
  {
    PollAllContinues(p, before, [ShutDown(started)] + after);
    PollAllKeeps(p, before);
    LookDelivers(PollAll(p, before), ShutDown(started));
    assert ([ShutDown(started)] + after)[1..] == after;
  }

  /** Every queued tag that the poller is offered before a shutdown is delivered with the outcome it is offered with, and
      its context has then lived its whole life for good. */
  lemma PolledIsDelivered(p: Pool, before: seq<Poll>, poll: Poll, after: seq<Poll>)
    requires AllOwned(p, NULL, []) && (forall b | b in before :: !b.ShutDown?) && Offers(PollAll(p, before), poll)
    ensures var e := PollAll(p, before + ([poll] + after));
            && poll.tag !in e.queue && poll.tag in e.kinds
            && Life(e.log, poll.tag) ==
               [Started(poll.tag, e.kinds[poll.tag]), Dequeued(poll.tag)]
               + (if poll.resumable then [Resumed(poll.tag, poll.ok)] else [])
               + (if e.kinds[poll.tag] == ASYNC_UNARY then [Freed(poll.tag)] else [])
  {
    var q := PollAll(p, before);
    PollAllContinues(p, before, [poll] + after);
    PollAllKeeps(p, before);
    LookDelivers(q, poll);
    LookKeeps(q, poll);
    assert ([poll] + after)[1..] == after;
    PollAllLeaves(Look(q, poll).0, after, poll.tag);
  }

  /** So is every queued tag that the drain is offered before it is offered none. */
  lemma DrainedIsDelivered(p: Pool, before: seq<Poll>, poll: Poll, after: seq<Poll>)
    requires AllOwned(p, NULL, []) && AllOffered(p, before) && Offers(Drain(p, before), poll)
    ensures var e := Drain(p, before + ([poll] + after));
            && poll.tag !in e.queue && poll.tag in e.kinds
            && Life(e.log, poll.tag) ==
               [Started(poll.tag, e.kinds[poll.tag]), Dequeued(poll.tag)]
               + (if poll.resumable then [Resumed(poll.tag, poll.ok)] else [])
               + (if e.kinds[poll.tag] == ASYNC_UNARY then [Freed(poll.tag)] else [])
  {
    var q := Drain(p, before);
    DrainContinues(p, before, [poll] + after);
    DrainKeeps(p, before);
    LookDelivers(q, poll);
    LookKeeps(q, poll);
    assert ([poll] + after)[1..] == after;
    DrainLeaves(Look(q, poll).0, after, poll.tag);
  }

  /** Nothing is left in the queue exactly when every context ever started has been finished. */
  lemma QueueEmptyIff(p: Pool)
    requires AllOwned(p, NULL, [])
    ensures p.queue == {} <==> forall t | t in p.kinds :: Finished(Life(p.log, t), t, p.kinds[t])
  {
    forall t | t in p.kinds
      ensures t in p.queue <==> !Finished(Life(p.log, t), t, p.kinds[t])
    {
      assert Owned(p, NULL, [], t);
    }
    forall t | t in p.queue ensures t in p.kinds {
      assert Owned(p, NULL, [], t);
    }
  }

  /** A stop request may come while an operation is pending: the poller then leaves its context queued, in memory,
      neither resumed nor freed. */
  lemma StopLeavesQueued(p: Pool, kind: ContextType)
    requires AllOwned(p, NULL, [])
    ensures var e := PollAll(p, [TimedOut([Op(kind, false)])]);
            p.nextTag in e.queue && p.nextTag in e.memory && Life(e.log, p.nextTag) == [Started(p.nextTag, kind)]
  {
    var op, poll := Op(kind, false), TimedOut([Op(kind, false)]);
    BeginKeeps(p, op, NULL, []);
    assert [op][..0] == [] && [poll][1..] == [];
    assert BeginAll(p, [op]) == Begin(BeginAll(p, []), op);
    assert PollAll(p, [poll]) == PollAll(Begin(p, op), []);
    assert Owned(Begin(p, op), NULL, [], p.nextTag);
  }

  // --- The adapter -----------------------------------------------------------------------------

  class CoroAdapter {
    var memory: map<Tag, Context>
    var queue: set<Tag>
    var nextTag: Tag
    ghost var kinds: map<Tag, ContextType>
    ghost var log: seq<Event>

    ghost function View(): Pool
      reads this
    {
      Pool(memory, queue, nextTag, kinds, log)
    }

    ghost predicate Valid()
      reads this
    {
      AllOwned(View(), NULL, [])
    }

    constructor ()
      ensures Valid() && log == [] && queue == {}
    {
      memory, queue, nextTag := map[], {}, 1;
      kinds, log := map[], [];
      new;
      forall t ensures Owned(View(), NULL, [], t) {
      }
    }

    /** `await_suspend`: hands a new context to the queue, or frees it if the operation does not start. */
    method Suspend(op: Op)
      modifies this
      ensures View() == Begin(old(View()), op)
      ensures nextTag == old(nextTag) + 1 && kinds == old(kinds)[old(nextTag) := op.kind]
      ensures if op.kind == ASYNC_UNARY && op.throws then
                && memory == old(memory) - {old(nextTag)} && queue == old(queue)
                && log == old(log) + [Started(old(nextTag), op.kind)] + [Freed(old(nextTag))]
              else
                && memory == old(memory)[old(nextTag) := Context(op.kind, false, OK)]
                && queue == old(queue) + {old(nextTag)}
                && log == old(log) + [Started(old(nextTag), op.kind)]
    {
      var tag := nextTag;
      memory := memory[tag := Context(op.kind, false, OK)];
      log := log + [Started(tag, op.kind)];
      if op.kind == ASYNC_UNARY && op.throws {
        memory := memory - {tag};
        log := log + [Freed(tag)];
      } else {
        queue := queue + {tag};
      }
      nextTag := nextTag + 1;
      kinds := kinds[tag := op.kind];
      assert View() == Begin(old(View()), op);
    }

    /** Operations started by a resumed coroutine, or by other threads. */
    method SuspendAll(ops: seq<Op>)
      modifies this
      ensures View() == BeginAll(old(View()), ops)
    {
      for i := 0 to |ops|
        invariant View() == BeginAll(old(View()), ops[..i])
      {
        assert ops[..i + 1][..i] == ops[..i];
        Suspend(ops[i]);
      }
      assert ops[..|ops|] == ops;
    }

    /** `process_tag`: writes the outcome, resumes the coroutine if there is one left, and frees the context if it is a
        unary one. The coroutine reads its outcome from the context, which is still there, and may start operations. */
    method ProcessTag(tag: Tag, ok: bool, resumable: bool, starts: seq<Op>)
      requires if tag == NULL then Valid()
               else && tag in kinds && tag in memory && tag !in queue
                    && AllOwned(View(), tag, [Started(tag, kinds[tag]), Dequeued(tag)])
      modifies this
      ensures Valid()
      ensures View() == if tag == NULL then old(View()) else Deliver(old(View()), tag, ok, resumable, starts)
      ensures tag != NULL ==>
                && Life(log, tag) ==
                   [Started(tag, old(kinds)[tag]), Dequeued(tag)]
                   + (if resumable then [Resumed(tag, ok)] else [])
                   + (if old(kinds)[tag] == ASYNC_UNARY then [Freed(tag)] else [])
                && (old(kinds)[tag] == ASYNC_UNARY ==> tag !in memory)
                && nextTag == old(nextTag) + if resumable then |starts| else 0
    {
      if tag == NULL {
        return;
      }
      ghost var stage := [Started(tag, kinds[tag]), Dequeued(tag)];
      DeliverKeeps(View(), tag, ok, resumable, starts);
      assert Owned(View(), tag, stage, tag);
      DeliveryStarts(View(), tag, ok, resumable, starts);
      WriteKeeps(View(), tag, stage, Written(memory[tag], ok));
      var contextType := memory[tag].kind;
      if contextType == ASYNC_UNARY {
        memory := memory[tag := memory[tag].(ok := ok, status := if ok then OK else CANCELLED)];
      } else {
        memory := memory[tag := memory[tag].(ok := ok)];
      }
      if resumable {
        BeginAllKeeps(View(), starts, tag, stage);
        SuspendAll(starts);
        var outcome := Outcome(memory[tag]);
        log := log + [Resumed(tag, outcome)];
      }
      if contextType == ASYNC_UNARY {
        memory := memory - {tag};  // delete ctx
        log := log + [Freed(tag)];
      } else if resumable {
        memory := memory - {tag};  // gone with its awaiter
      }
    }

    /** One look at the queue: `AsyncNext` delivers a tag that was started and not delivered before, or none. */
    method PollOnce(poll: Poll) returns (event: bool)
      requires Valid()
      modifies this
      ensures Valid() && (View(), event) == Look(old(View()), poll)
      ensures event <==> poll.Got? && poll.tag in BeginAll(old(View()), poll.started).queue
      ensures !event ==> View() == BeginAll(old(View()), poll.started)
      ensures event ==>
                && poll.tag !in queue && poll.tag in kinds
                && Life(log, poll.tag) ==
                   [Started(poll.tag, kinds[poll.tag]), Dequeued(poll.tag)]
                   + (if poll.resumable then [Resumed(poll.tag, poll.ok)] else [])
                   + (if kinds[poll.tag] == ASYNC_UNARY then [Freed(poll.tag)] else [])
                && nextTag == old(nextTag) + |poll.started| + if poll.resumable then |poll.starts| else 0
    {
      LookDelivers(View(), poll);
      BeginAllKeeps(View(), poll.started, NULL, []);
      SuspendAll(poll.started);
      event := poll.Got? && poll.tag in queue;
      if event {
        DequeueKeeps(View(), poll.tag);
        assert Owned(View(), NULL, [], poll.tag);
        queue := queue - {poll.tag};
        log := log + [Dequeued(poll.tag)];
        ProcessTag(poll.tag, poll.ok, poll.resumable, poll.starts);
      }
    }

    /** `drain_remaining_tags`: until the queue yields nothing. */
    method DrainRemainingTags(polls: seq<Poll>) returns (drained: nat)
      requires Valid()
      modifies this
      ensures Valid() && View() == Drain(old(View()), polls)
      ensures drained <= |polls| && AllOffered(old(View()), polls[..drained])
      ensures drained < |polls| ==> !Offers(Drain(old(View()), polls[..drained]), polls[drained])
    {
      ghost var p := View();
      drained := 0;
      var i := 0;
      assert polls[..0] == [];
      while i < |polls|
        invariant 0 <= i == drained <= |polls|
        invariant Valid() && AllOffered(p, polls[..i]) && View() == Drain(p, polls[..i])
      {
        ghost var rest := polls[i + 1..];
        assert polls == polls[..i] + ([polls[i]] + rest);
        var event := PollOnce(polls[i]);
        if !event {
          DrainStops(p, polls[..i], polls[i], rest);
          return;
        }
        DrainOneMore(p, polls, i);
        drained := drained + 1;
        i := i + 1;
      }
      assert polls[..|polls|] == polls;
    }

    /** `poll_loop`: until a stop request, which comes after the given polls, or the shutdown of the queue. */
    method PollLoop(polls: seq<Poll>)
      requires Valid()
      modifies this
      ensures Valid() && View() == PollAll(old(View()), polls)
    {
      var i := 0;
      while i < |polls|
        invariant 0 <= i <= |polls|
        invariant Valid() && PollAll(View(), polls[i..]) == PollAll(old(View()), polls)
      {
        assert polls[i..][1..] == polls[i + 1..];
        var event := PollOnce(polls[i]);
        if !event && polls[i].ShutDown? {
          var _ := DrainRemainingTags(polls[i + 1..]);
          return;
        }
        i := i + 1;
      }
    }
  }
}
