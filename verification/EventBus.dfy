/**
 * The event bus as a machine of atomic steps: one publisher holds the lock and works off its
 * tasks while consumers take from the queue between any two of them. Every interleaving is a
 * sequence of actions; the invariants are about all of them.
 */
module EventBuses {

  datatype Event = Event(eventType: string, id: int)

  /** A delivery: one event, or a batch handed over at once. */
  datatype Item = Single(event: Event) | Batch(events: seq<Event>)

  /** What left the head of the queue, and whether a consumer got it or it was dropped. */
  datatype Taken = Taken(item: Item, consumed: bool)

  /** What the lock holder still has to do, one atomic step each. */
  datatype Task =
    | Enqueue(event: Event)
    | Flush
    | Put(item: Item)      // put_nowait
    | Evict(item: Item)    // after Full: drop the oldest delivery
    | Retry(item: Item)    // the second put_nowait

  datatype State = State(rows: seq<Event>, batch: seq<Event>, queue: seq<Item>,
                         taken: seq<Taken>, todo: seq<Task>, overflows: nat, abandoned: seq<Item>)

  datatype Action = Publish(events: seq<Event>) | RequestFlush | Work | Consume

  const EMPTY := State([], [], [], [], [], 0, [])

  predicate HighVolume(e: Event) {
    e.eventType == "registry_write" || e.eventType == "image_load"
  }

  /** A non-positive size means an unbounded queue. */
  predicate Full(queue: seq<Item>, size: int) {
    0 < size <= |queue|
  }

  function Enqueues(events: seq<Event>): seq<Task> {
    seq(|events|, i requires 0 <= i < |events| => Enqueue(events[i]))
  }

  lemma EnqueuesNext(events: seq<Event>, i: nat)
    requires i < |events|
    ensures var todo := Enqueues(events[i..]);
            todo != [] && todo[0] == Enqueue(events[i]) && todo[1..] == Enqueues(events[i + 1..])
  {
  }

  lemma NothingLeft(events: seq<Event>)
    ensures Enqueues(events[|events|..]) == []
  {
  }

  function WorkStep(b: State, size: int, threshold: int): State
    requires b.todo != []
  {
    var rest := b.todo[1..];
    match b.todo[0]
    case Enqueue(e) =>
      if HighVolume(e) then
        var batch := b.batch + [e];
        b.(batch := batch, todo := if |batch| >= threshold then [Flush] + rest else rest)
      else b.(todo := (if b.batch != [] then [Flush] else []) + [Put(Single(e))] + rest)
    case Flush =>
      if b.batch == [] then b.(todo := rest)
      else b.(batch := [], todo := [Put(Batch(b.batch))] + rest)
    case Put(i) =>
      if Full(b.queue, size) then b.(todo := [Evict(i)] + rest, overflows := b.overflows + 1)
      else b.(queue := b.queue + [i], todo := rest)
    case Evict(i) =>
      if b.queue == [] then b.(todo := [Retry(i)] + rest)
      else b.(queue := b.queue[1..], taken := b.taken + [Taken(b.queue[0], false)], todo := [Retry(i)] + rest)
    case Retry(i) =>
      if Full(b.queue, size) then b.(abandoned := b.abandoned + [i], todo := rest)
      else b.(queue := b.queue + [i], todo := rest)
  }

  /** One atomic step; an action that is not possible (lock held, nothing queued) changes nothing. */
  function Step(b: State, a: Action, size: int, threshold: int): State {
    match a
    case Publish(es) => if b.todo == [] then b.(rows := b.rows + es, todo := Enqueues(es)) else b
    case RequestFlush => if b.todo == [] then b.(todo := [Flush]) else b
    case Work => if b.todo == [] then b else WorkStep(b, size, threshold)
    case Consume =>
      if b.queue == [] then b
      else b.(queue := b.queue[1..], taken := b.taken + [Taken(b.queue[0], true)])
  }

  function Run(actions: seq<Action>, size: int, threshold: int): State {
    if actions == [] then EMPTY
    else Step(Run(actions[..|actions| - 1], size, threshold), actions[|actions| - 1], size, threshold)
  }

  // ---------- Events in order ----------

  function Events(i: Item): seq<Event> {
    match i
    case Single(e) => [e]
    case Batch(es) => es
  }

  function Flat(items: seq<Item>): seq<Event> {
    if items == [] then [] else Events(items[0]) + Flat(items[1..])
  }

  function FlatTaken(taken: seq<Taken>): seq<Event> {
    if taken == [] then [] else FlatTaken(taken[..|taken| - 1]) + Events(taken[|taken| - 1].item)
  }

  /** What consumers received, in order. */
  function Received(taken: seq<Taken>): seq<Event> {
    if taken == [] then []
    else
      var last := taken[|taken| - 1];
      Received(taken[..|taken| - 1]) + if last.consumed then Events(last.item) else []
  }

  /** The events not yet in the queue, in the order they will get there. */
  function Pending(batch: seq<Event>, todo: seq<Task>): seq<Event>
    decreases |todo|
  {
    if todo == [] then batch
    else
      var rest := todo[1..];
      match todo[0]
      case Enqueue(e) => Pending(batch + [e], rest)
      case Flush => batch + Pending([], rest)
      case Put(i) => Events(i) + Pending(batch, rest)
      case Evict(i) => Events(i) + Pending(batch, rest)
      case Retry(i) => Events(i) + Pending(batch, rest)
  }

  /** Everything published, in publish order: taken, then queued, then pending. It is also the row order. */
  predicate Conserved(b: State) {
    FlatTaken(b.taken) + Flat(b.queue) + Pending(b.batch, b.todo) == b.rows
  }

  // ---------- Invariants ----------

  predicate OnlyEnqueues(todo: seq<Task>) {
    forall k :: 0 <= k < |todo| ==> todo[k].Enqueue?
  }

  /** The few shapes a task list goes through. */
  predicate Shaped(todo: seq<Task>) {
    todo == [] ||
    match todo[0]
    case Enqueue(_) => OnlyEnqueues(todo[1..])
    case Put(_) => Follows(todo[1..])
    case _ => Follows(todo[1..])
  }

  /** After a flush or a delivery, at most one single delivery, then enqueues. */
  predicate Follows(todo: seq<Task>) {
    OnlyEnqueues(todo) || (todo[0].Put? && todo[0].item.Single? && OnlyEnqueues(todo[1..]))
  }

  predicate NonEmpty(i: Item) {
    Events(i) != []
  }

  predicate ItemsNonEmpty(b: State) {
    && (forall k :: 0 <= k < |b.queue| ==> NonEmpty(b.queue[k]))
    && (forall k :: 0 <= k < |b.taken| ==> NonEmpty(b.taken[k].item))
    && (b.todo != [] && (b.todo[0].Put? || b.todo[0].Evict? || b.todo[0].Retry?) ==> NonEmpty(b.todo[0].item))
  }

  function DroppedCount(taken: seq<Taken>): nat {
    if taken == [] then 0
    else DroppedCount(taken[..|taken| - 1]) + if taken[|taken| - 1].consumed then 0 else 1
  }

  predicate Bounded(b: State, size: int, threshold: int) {
    && (size >= 1 ==> |b.queue| <= size)
    && (|b.batch| < Limit(threshold) || (b.todo != [] && b.todo[0].Flush?))
    && (b.todo != [] && b.todo[0].Evict? ==> size >= 1)
    && (b.todo != [] && b.todo[0].Retry? ==> size >= 1 && |b.queue| < size)
    && b.abandoned == []
    && DroppedCount(b.taken) + (if b.todo != [] && b.todo[0].Evict? then 1 else 0) <= b.overflows
  }

  function Limit(threshold: int): int {
    if threshold > 1 then threshold else 1
  }

  predicate Invariant(b: State, size: int, threshold: int) {
    Conserved(b) && Shaped(b.todo) && ItemsNonEmpty(b) && Bounded(b, size, threshold)
  }

  // ---------- Preservation ----------

  lemma {:induction false} PendingEnqueues(batch: seq<Event>, todo: seq<Task>)
    requires OnlyEnqueues(todo)
    ensures Pending(batch, todo) == batch + Pending([], todo)
    decreases |todo|
  {
    if todo != [] {
      var e := todo[0].event;
      PendingEnqueues(batch + [e], todo[1..]);
      PendingEnqueues([] + [e], todo[1..]);
      assert batch + [e] + Pending([], todo[1..]) == batch + ([] + [e] + Pending([], todo[1..]));
    }
  }

  lemma {:induction false} PendingPublished(batch: seq<Event>, events: seq<Event>)
    ensures Pending(batch, Enqueues(events)) == batch + events
    decreases |events|
  {
    if events != [] {
      PendingPublished(batch + [events[0]], events[1..]);
      assert Enqueues(events)[1..] == Enqueues(events[1..]);
      assert batch + [events[0]] + events[1..] == batch + events;
    } else {
      assert batch + events == batch;
    }
  }

  lemma {:induction false} FlatPush(queue: seq<Item>, i: Item)
    ensures Flat(queue + [i]) == Flat(queue) + Events(i)
  {
    if queue == [] {
      assert queue + [i] == [i] && [i][1..] == [];
    } else {
      FlatPush(queue[1..], i);
      assert (queue + [i])[1..] == queue[1..] + [i];
    }
  }

  /** Moving the head of the queue to the taken side keeps the order of events. */
  lemma TakeKeepsOrder(taken: seq<Taken>, queue: seq<Item>, consumed: bool)
    requires queue != []
    ensures FlatTaken(taken + [Taken(queue[0], consumed)]) + Flat(queue[1..]) == FlatTaken(taken) + Flat(queue)
    ensures DroppedCount(taken + [Taken(queue[0], consumed)]) == DroppedCount(taken) + if consumed then 0 else 1
  {
    var t := taken + [Taken(queue[0], consumed)];
    assert t[..|taken|] == taken;
  }

  lemma EnqueueConserves(b: State, size: int, threshold: int)
    requires b.todo != [] && b.todo[0].Enqueue? && Conserved(b) && Shaped(b.todo)
    ensures Conserved(WorkStep(b, size, threshold))
  {
    var e, rest := b.todo[0].event, b.todo[1..];
    PendingEnqueues(b.batch + [e], rest);
    if HighVolume(e) {
      assert ([Flush] + rest)[1..] == rest;
    } else {
      PutAfterFlush(e, rest);
      assert b.batch + [e] + Pending([], rest) == b.batch + ([e] + Pending([], rest));
    }
  }

  lemma PutAfterFlush(e: Event, rest: seq<Task>)
    ensures var single := [Put(Single(e))] + rest;
            && single[1..] == rest
            && ([Flush] + single)[1..] == single
            && [Flush] + [Put(Single(e))] + rest == [Flush] + single
            && [] + [Put(Single(e))] + rest == single
  {
  }

  lemma FlushConserves(b: State, size: int, threshold: int)
    requires b.todo != [] && b.todo[0].Flush? && Conserved(b)
    ensures Conserved(WorkStep(b, size, threshold))
  {
    var rest := b.todo[1..];
    assert ([Put(Batch(b.batch))] + rest)[1..] == rest;
    if b.batch == [] {
      assert [] + Pending([], rest) == Pending(b.batch, rest);
    }
  }

  lemma Reassociate(a: seq<Event>, b: seq<Event>, c: seq<Event>, d: seq<Event>)
    ensures a + b + (c + d) == a + (b + c) + d
  {
  }

  /** Appending the delivery at hand moves its events from pending to queued. */
  lemma DeliverConserves(b: State, i: Item)
    requires b.todo != [] && (b.todo[0] == Put(i) || b.todo[0] == Retry(i)) && Conserved(b)
    ensures Conserved(b.(queue := b.queue + [i], todo := b.todo[1..]))
  {
    FlatPush(b.queue, i);
    var p := Pending(b.batch, b.todo[1..]);
    Reassociate(FlatTaken(b.taken), Flat(b.queue), Events(i), p);
  }

  lemma EvictConserves(b: State, size: int, threshold: int)
    requires b.todo != [] && b.todo[0].Evict? && Conserved(b)
    ensures Conserved(WorkStep(b, size, threshold))
  {
    var rest := b.todo[1..];
    assert ([Retry(b.todo[0].item)] + rest)[1..] == rest;
    if b.queue != [] {
      TakeKeepsOrder(b.taken, b.queue, false);
    }
  }

  lemma WorkConserves(b: State, size: int, threshold: int)
    requires b.todo != [] && Conserved(b) && Shaped(b.todo)
    requires b.todo[0].Retry? ==> !Full(b.queue, size)
    ensures Conserved(WorkStep(b, size, threshold))
  {
    match b.todo[0] {
      case Enqueue(_) => EnqueueConserves(b, size, threshold);
      case Flush => FlushConserves(b, size, threshold);
      case Put(i) =>
        if Full(b.queue, size) {
          assert ([Evict(i)] + b.todo[1..])[1..] == b.todo[1..];
        } else {
          DeliverConserves(b, i);
        }
      case Evict(_) => EvictConserves(b, size, threshold);
      case Retry(i) => DeliverConserves(b, i);
    }
  }

  lemma EnqueueKeepsShape(b: State, size: int, threshold: int)
    requires b.todo != [] && b.todo[0].Enqueue? && Shaped(b.todo) && ItemsNonEmpty(b)
    ensures var b' := WorkStep(b, size, threshold); Shaped(b'.todo) && ItemsNonEmpty(b')
  {
    assert ([Flush] + b.todo[1..])[1..] == b.todo[1..];
    PutAfterFlush(b.todo[0].event, b.todo[1..]);
  }

  lemma WorkKeepsShape(b: State, size: int, threshold: int)
    requires b.todo != [] && Shaped(b.todo) && ItemsNonEmpty(b)
    ensures var b' := WorkStep(b, size, threshold); Shaped(b'.todo) && ItemsNonEmpty(b')
  {
    var rest := b.todo[1..];
    match b.todo[0] {
      case Enqueue(_) => EnqueueKeepsShape(b, size, threshold);
      case Flush => assert ([Put(Batch(b.batch))] + rest)[1..] == rest;
      case Put(i) => assert ([Evict(i)] + rest)[1..] == rest;
      case Evict(i) => assert ([Retry(i)] + rest)[1..] == rest;
      case Retry(i) =>
    }
  }

  lemma WorkKeepsBounds(b: State, size: int, threshold: int)
    requires b.todo != [] && Shaped(b.todo) && Bounded(b, size, threshold)
    ensures Bounded(WorkStep(b, size, threshold), size, threshold)
  {
    if b.todo[0].Enqueue? {
      PutAfterFlush(b.todo[0].event, b.todo[1..]);
    }
    if b.todo[0].Evict? && b.queue != [] {
      TakeKeepsOrder(b.taken, b.queue, false);
    }
  }

  lemma PublishConserves(b: State, events: seq<Event>)
    requires b.todo == [] && Conserved(b)
    ensures Conserved(b.(rows := b.rows + events, todo := Enqueues(events))) && Shaped(Enqueues(events))
    ensures events != [] ==> Enqueues(events)[0].Enqueue?
  {
    PendingPublished(b.batch, events);
  }

  lemma StepKeepsInvariant(b: State, a: Action, size: int, threshold: int)
    requires Invariant(b, size, threshold)
    ensures Invariant(Step(b, a, size, threshold), size, threshold)
  {
    match a {
      case Publish(es) =>
        if b.todo == [] {
          PublishConserves(b, es);
        }
      case RequestFlush =>
        if b.todo == [] {
          assert b.batch + Pending([], []) == b.batch;
        }
      case Work =>
        if b.todo != [] {
          WorkConserves(b, size, threshold);
          WorkKeepsShape(b, size, threshold);
          WorkKeepsBounds(b, size, threshold);
        }
      case Consume =>
        if b.queue != [] {
          TakeKeepsOrder(b.taken, b.queue, true);
        }
    }
  }

  /** The invariants hold at every point of every interleaving. */
  lemma {:induction false} AlwaysInvariant(actions: seq<Action>, size: int, threshold: int)
    ensures Invariant(Run(actions, size, threshold), size, threshold)
  {
    if actions != [] {
      AlwaysInvariant(actions[..|actions| - 1], size, threshold);
      StepKeepsInvariant(Run(actions[..|actions| - 1], size, threshold), actions[|actions| - 1], size, threshold);
    }
  }

  // ---------- What consumers see ----------

  predicate Subsequence(a: seq<Event>, b: seq<Event>) {
    a == [] || (b != [] && ((a[0] == b[0] && Subsequence(a[1..], b[1..])) || Subsequence(a, b[1..])))
  }

  lemma {:induction false} SubsequenceJoin(a: seq<Event>, b: seq<Event>, c: seq<Event>, d: seq<Event>)
    requires Subsequence(a, b) && Subsequence(c, d)
    ensures Subsequence(a + c, b + d)
    decreases |b|
  {
    if b == [] {
      assert a + c == c && b + d == d;
    } else {
      assert (b + d)[1..] == b[1..] + d;
      if a != [] && a[0] == b[0] && Subsequence(a[1..], b[1..]) {
        SubsequenceJoin(a[1..], b[1..], c, d);
        assert (a + c)[1..] == a[1..] + c;
      } else {
        SubsequenceJoin(a, b[1..], c, d);
      }
    }
  }

  lemma {:induction false} SubsequenceSelf(a: seq<Event>)
    ensures Subsequence(a, a)
  {
    if a != [] {
      SubsequenceSelf(a[1..]);
    }
  }

  lemma {:induction false} ReceivedSubsequence(taken: seq<Taken>)
    ensures Subsequence(Received(taken), FlatTaken(taken))
    ensures DroppedCount(taken) == 0 ==> Received(taken) == FlatTaken(taken)
  {
    if taken != [] {
      var before, last := taken[..|taken| - 1], taken[|taken| - 1];
      ReceivedSubsequence(before);
      SubsequenceSelf(Events(last.item));
      SubsequenceJoin(Received(before), FlatTaken(before), if last.consumed then Events(last.item) else [], Events(last.item));
    }
  }

  lemma ConservedSubsequence(b: State)
    requires Conserved(b)
    ensures Subsequence(Received(b.taken), b.rows)
    ensures DroppedCount(b.taken) == 0 ==> Received(b.taken) <= b.rows
    ensures DroppedCount(b.taken) == 0 && b.queue == [] && b.batch == [] && b.todo == [] ==> Received(b.taken) == b.rows
  {
    ReceivedSubsequence(b.taken);
    var later := Flat(b.queue) + Pending(b.batch, b.todo);
    assert FlatTaken(b.taken) + later == b.rows;
    SubsequenceJoin(Received(b.taken), FlatTaken(b.taken), [], later);
    assert Received(b.taken) + [] == Received(b.taken);
  }

  /**
   * Consumers see the published events in publish order, some possibly missing; nothing is
   * missing when nothing was dropped and nothing is left in the bus.
   */
  lemma ConsumersSeePublishOrder(actions: seq<Action>, size: int, threshold: int)
    ensures var b := Run(actions, size, threshold);
            && Subsequence(Received(b.taken), b.rows)
            && (DroppedCount(b.taken) == 0 ==> Received(b.taken) <= b.rows)
            && (DroppedCount(b.taken) == 0 && b.queue == [] && b.batch == [] && b.todo == [] ==> Received(b.taken) == b.rows)
  {
    AlwaysInvariant(actions, size, threshold);
    ConservedSubsequence(Run(actions, size, threshold));
  }

  /** With room for at least one delivery the second put never fails, each overflow
      costs at most one delivery, nothing empty is delivered, and queue and batch stay within bounds. */
  lemma BufferingIsBounded(actions: seq<Action>, size: int, threshold: int)
    ensures var b := Run(actions, size, threshold);
            && (b.todo != [] && b.todo[0].Retry? ==> !Full(b.queue, size))
            && b.abandoned == []
            && ItemsNonEmpty(b)
            && DroppedCount(b.taken) <= b.overflows
            && (size >= 1 ==> |b.queue| <= size)
            && (b.todo == [] ==> |b.batch| < Limit(threshold))
  {
    AlwaysInvariant(actions, size, threshold);
  }

  // ---------- What is batched ----------

  /** A batch is of the two batched types throughout; a single event is of another. */
  predicate RightKind(i: Item) {
    match i
    case Single(e) => e.eventType != "registry_write" && e.eventType != "image_load"
    case Batch(es) => AllBatched(es)
  }

  predicate AllBatched(events: seq<Event>) {
    forall k :: 0 <= k < |events| ==> events[k].eventType == "registry_write" || events[k].eventType == "image_load"
  }

  /** Everything in the bus is of the right kind: what waits, what is on its way, what is queued and what left. */
  predicate Apart(b: State) {
    && AllBatched(b.batch)
    && (forall k :: 0 <= k < |b.queue| ==> RightKind(b.queue[k]))
    && (forall k :: 0 <= k < |b.taken| ==> RightKind(b.taken[k].item))
    && (forall k :: 0 <= k < |b.todo| && !b.todo[k].Enqueue? && !b.todo[k].Flush? ==> RightKind(b.todo[k].item))
  }

  lemma WorkKeepsApart(b: State, size: int, threshold: int)
    requires Apart(b) && b.todo != []
    ensures Apart(WorkStep(b, size, threshold))
  {
    assert forall k :: 0 <= k < |b.todo[1..]| ==> b.todo[1..][k] == b.todo[k + 1];
  }

  lemma StepKeepsApart(b: State, a: Action, size: int, threshold: int)
    requires Apart(b)
    ensures Apart(Step(b, a, size, threshold))
  {
    hide WorkStep;
    if a.Work? && b.todo != [] {
      WorkKeepsApart(b, size, threshold);
    }
  }

  /** Over every interleaving. */
  lemma {:induction false} AlwaysApart(actions: seq<Action>, size: int, threshold: int)
    ensures Apart(Run(actions, size, threshold))
  {
    if actions != [] {
      AlwaysApart(actions[..|actions| - 1], size, threshold);
      StepKeepsApart(Run(actions[..|actions| - 1], size, threshold), actions[|actions| - 1], size, threshold);
    }
  }

  /** The last delivery carries the last event. */
  lemma {:induction false} LastOfQueue(queue: seq<Item>)
    requires queue != [] && forall k :: 0 <= k < |queue| ==> NonEmpty(queue[k])
    ensures var es := Events(queue[|queue| - 1]);
            Flat(queue) != [] && es != [] && Flat(queue)[|Flat(queue)| - 1] == es[|es| - 1]
  {
    if |queue| > 1 {
      LastOfQueue(queue[1..]);
    } else {
      assert queue[1..] == [] && Flat(queue) == Events(queue[0]);
    }
  }

  /**
   * Between operations an event that is not batched does not wait: with one as the last row, the
   * batch is empty, and it is the last delivery queued, or, with nothing queued, the last one to
   * have left.
   */
  predicate Prompt(b: State) {
    b.todo == [] && b.rows != [] ==>
      var last := b.rows[|b.rows| - 1];
      last.eventType != "registry_write" && last.eventType != "image_load" ==>
        && b.batch == []
        && if b.queue != [] then b.queue[|b.queue| - 1] == Single(last)
           else b.taken != [] && b.taken[|b.taken| - 1].item == Single(last)
  }

  lemma AlwaysPrompt(actions: seq<Action>, size: int, threshold: int)
    ensures Prompt(Run(actions, size, threshold))
  {
    AlwaysInvariant(actions, size, threshold);
    AlwaysApart(actions, size, threshold);
    SettledLast(Run(actions, size, threshold));
  }

  lemma SettledLast(b: State)
    requires Conserved(b) && ItemsNonEmpty(b) && Apart(b)
    ensures Prompt(b)
  {
    if b.todo == [] && b.rows != [] {
      assert FlatTaken(b.taken) + Flat(b.queue) + b.batch == b.rows;
      assert b.batch != [] ==> b.rows[|b.rows| - 1] == b.batch[|b.batch| - 1];
      if b.batch == [] {
        LastLeft(b.taken, b.queue, b.rows);
        var i := if b.queue != [] then b.queue[|b.queue| - 1] else b.taken[|b.taken| - 1].item;
        assert RightKind(i);
      }
    }
  }

  lemma LastLeft(taken: seq<Taken>, queue: seq<Item>, rows: seq<Event>)
    requires FlatTaken(taken) + Flat(queue) == rows != []
    requires forall k :: 0 <= k < |queue| ==> NonEmpty(queue[k])
    requires forall k :: 0 <= k < |taken| ==> NonEmpty(taken[k].item)
    ensures queue == [] ==> taken != []
    ensures var i := if queue != [] then queue[|queue| - 1] else taken[|taken| - 1].item;
            NonEmpty(i) && Events(i)[|Events(i)| - 1] == rows[|rows| - 1]
  {
    if queue != [] {
      LastOfQueue(queue);
    } else {
      assert Flat(queue) == [];
    }
  }

  // ---------- One operation, with no consumer in between ----------

  function Works(b: State, n: nat, size: int, threshold: int): State
    decreases n
  {
    if n == 0 then b else Works(Step(b, Work, size, threshold), n - 1, size, threshold)
  }

  /** A put with room appends; without, it pushes the oldest delivery out; an unbounded queue always has room. */
  lemma PutLaw(b: State, i: Item, rest: seq<Task>, size: int, threshold: int)
    requires b.todo == [Put(i)] + rest && (size > 0 ==> |b.queue| <= size)
    ensures size <= 0 || |b.queue| < size ==>
              Works(b, 1, size, threshold) == b.(queue := b.queue + [i], todo := rest)
    ensures 0 < size == |b.queue| ==>
              Works(b, 3, size, threshold) ==
              b.(queue := b.queue[1..] + [i], taken := b.taken + [Taken(b.queue[0], false)], overflows := b.overflows + 1, todo := rest)
  {
    assert b.todo[1..] == rest;
    var b1 := Step(b, Work, size, threshold);
    if 0 < size == |b.queue| {
      assert b1 == b.(todo := [Evict(i)] + rest, overflows := b.overflows + 1);
      assert b1.todo[1..] == rest;
      var b2 := Step(b1, Work, size, threshold);
      assert b2 == b1.(queue := b.queue[1..], taken := b.taken + [Taken(b.queue[0], false)], todo := [Retry(i)] + rest);
      assert b2.todo[1..] == rest;
      assert Works(b, 3, size, threshold) == Works(b1, 2, size, threshold) == Works(b2, 1, size, threshold);
    }
  }

  /** A batched event below the threshold only waits: one more row, one more in the batch. */
  lemma BatchedWaits(b: State, e: Event, size: int, threshold: int)
    requires b.todo == [] && (e.eventType == "registry_write" || e.eventType == "image_load")
    requires |b.batch| + 1 < threshold
    ensures Works(Step(b, Publish([e]), size, threshold), 1, size, threshold) == b.(rows := b.rows + [e], batch := b.batch + [e])
  {
    assert Enqueues([e]) == [Enqueue(e)] && [Enqueue(e)][1..] == [];
  }

  /** At the threshold the whole batch becomes one delivery. */
  lemma BatchedAtThreshold(b: State, e: Event, size: int, threshold: int)
    requires b.todo == [] && (e.eventType == "registry_write" || e.eventType == "image_load")
    requires |b.batch| + 1 >= threshold && (size <= 0 || |b.queue| < size)
    ensures Works(Step(b, Publish([e]), size, threshold), 3, size, threshold) ==
            b.(rows := b.rows + [e], batch := [], queue := b.queue + [Batch(b.batch + [e])])
  {
    var b0 := Step(b, Publish([e]), size, threshold);
    assert Enqueues([e]) == [Enqueue(e)] && [Enqueue(e)][1..] == [] && [Flush] + [] == [Flush] && [Flush][1..] == [];
    var b1 := Step(b0, Work, size, threshold);
    assert b1 == b.(rows := b.rows + [e], batch := b.batch + [e], todo := [Flush]);
    FlushLaw(b1, [], size, threshold);
  }

  /** Flushing makes one delivery of what waits. */
  lemma FlushLaw(b: State, rest: seq<Task>, size: int, threshold: int)
    requires b.todo == [Flush] + rest && b.batch != [] && (size <= 0 || |b.queue| < size)
    ensures Works(b, 2, size, threshold) == b.(batch := [], queue := b.queue + [Batch(b.batch)], todo := rest)
  {
    assert b.todo[1..] == rest;
    var b1 := Step(b, Work, size, threshold);
    assert b1 == b.(batch := [], todo := [Put(Batch(b.batch))] + rest);
    PutLaw(b1, Batch(b.batch), rest, size, threshold);
    assert Works(b, 2, size, threshold) == Works(b1, 1, size, threshold);
  }

  /** Any other event is delivered at once, on its own, right after what waited. */
  lemma OthersGoAtOnce(b: State, e: Event, size: int, threshold: int)
    requires b.todo == [] && e.eventType != "registry_write" && e.eventType != "image_load"
    requires size <= 0 || |b.queue| + 1 < size
    ensures Works(Step(b, Publish([e]), size, threshold), if b.batch == [] then 2 else 4, size, threshold) ==
            b.(rows := b.rows + [e], batch := [],
               queue := b.queue + (if b.batch == [] then [] else [Batch(b.batch)]) + [Single(e)])
  {
    var b0 := Step(b, Publish([e]), size, threshold);
    assert Enqueues([e]) == [Enqueue(e)] && [Enqueue(e)][1..] == [];
    PutAfterFlush(e, []);
    var b1 := Step(b0, Work, size, threshold);
    if b.batch == [] {
      assert b1.todo == [Put(Single(e))] + [];
      PutLaw(b1, Single(e), [], size, threshold);
      assert b.queue + [] + [Single(e)] == b.queue + [Single(e)];
    } else {
      assert b1.todo == [Flush] + [Put(Single(e))];
      FlushLaw(b1, [Put(Single(e))], size, threshold);
      var b3 := Works(b1, 2, size, threshold);
      assert b3.todo == [Put(Single(e))] + [];
      PutLaw(b3, Single(e), [], size, threshold);
      WorksOn(b1, 2, 1, size, threshold);
      assert Works(b0, 4, size, threshold) == Works(b1, 3, size, threshold);
    }
  }

  lemma {:induction false} WorksOn(b: State, m: nat, n: nat, size: int, threshold: int)
    ensures Works(b, m + n, size, threshold) == Works(Works(b, m, size, threshold), n, size, threshold)
    decreases m
  {
    if m > 0 {
      WorksOn(Step(b, Work, size, threshold), m - 1, n, size, threshold);
    }
  }

  // ---------- The object ----------

  class EventBus {
    const queueSize: int
    const highVolumeBatch: int
    var rows: seq<Event>      // the table, in insertion order
    var batch: seq<Event>
    var queue: seq<Item>
    ghost var state: State           // the machine this object runs
    ghost var trace: seq<Action>     // every atomic action so far, consumers' included

    ghost predicate Valid()
      reads this
    {
      && rows == state.rows && batch == state.batch && queue == state.queue
      && state == Run(trace, queueSize, highVolumeBatch)
    }

    constructor (queueSize: int, highVolumeBatch: int)
      ensures Valid() && this.queueSize == queueSize && this.highVolumeBatch == highVolumeBatch && trace == []
    {
      this.queueSize, this.highVolumeBatch := queueSize, highVolumeBatch;
      rows, batch, queue := [], [], [];
      state, trace := EMPTY, [];
    }

    /** What waits after an event: a batched one joins below the threshold; else nothing does. */
    ghost function Waiting(before: seq<Event>, event: Event): seq<Event> {
      if event.eventType in {"registry_write", "image_load"} && |before| + 1 < highVolumeBatch then before + [event] else []
    }

    /** Records an atomic action in the ghost machine. */
    ghost method Record(a: Action)
      requires state == Run(trace, queueSize, highVolumeBatch)
      modifies this`state, this`trace
      ensures state == Step(old(state), a, queueSize, highVolumeBatch) && trace == old(trace) + [a]
      ensures state == Run(trace, queueSize, highVolumeBatch)
    {
      trace := trace + [a];
      assert trace[..|trace| - 1] == old(trace);
      state := Step(state, a, queueSize, highVolumeBatch);
    }

    /** Between two steps of the publisher, consumers may take any number of deliveries. */
    method Others()
      requires Valid()
      modifies this`queue, this`state, this`trace
      ensures Valid() && state.todo == old(state.todo) && old(trace) <= trace
      ensures |queue| <= |old(queue)|
    {
      var consumers: nat :| true;
      for i := 0 to consumers
        invariant Valid() && state.todo == old(state.todo) && old(trace) <= trace && |queue| <= |old(queue)|
        invariant state.batch == old(state.batch) && state.rows == old(state.rows)
      {
        var _ := Consume();
      }
    }

    /** What a consumer gets; nothing when the queue is empty. */
    method Consume() returns (item: seq<Item>)
      requires Valid()
      modifies this`queue, this`state, this`trace
      ensures Valid() && state == Step(old(state), Action.Consume, queueSize, highVolumeBatch)
      ensures trace == old(trace) + [Action.Consume]
      ensures item == if old(queue) == [] then [] else [old(queue)[0]]
    {
      item := [];
      if queue != [] {
        item, queue := [queue[0]], queue[1..];
      }
      Record(Action.Consume);
    }

    /** Inserts the row, then delivers: a batched event may wait, and nothing waits behind another. */
    method Publish(event: Event)
      requires Valid() && state.todo == []
      modifies this
      ensures Valid() && state.todo == [] && rows == old(rows) + [event]
      ensures old(trace) + [Action.Publish([event])] <= trace
      ensures batch == Waiting(old(batch), event)
    {
      rows := rows + [event];
      Record(Action.Publish([event]));
      assert Enqueues([event]) == [Enqueue(event)] && [Enqueue(event)][1..] == [];
      DoEnqueue(event);
    }

    method PublishMany(events: seq<Event>)
      requires Valid() && state.todo == []
      modifies this
      ensures Valid() && state.todo == [] && rows == old(rows) + events
      ensures old(trace) + [Action.Publish(events)] <= trace
      ensures events != [] && events[|events| - 1].eventType !in {"registry_write", "image_load"} ==> batch == []
    {
      hide Enqueues, WorkStep, Run;
      rows := rows + events;
      Record(Action.Publish(events));
      var i := 0;
      assert events[0..] == events;
      while i < |events|
        invariant 0 <= i <= |events| && Valid() && old(trace) + [Action.Publish(events)] <= trace
        invariant rows == old(rows) + events && state.todo == Enqueues(events[i..])
        invariant i > 0 && events[i - 1].eventType !in {"registry_write", "image_load"} ==> batch == []
      {
        EnqueuesNext(events, i);
        DoEnqueue(events[i]);
        i := i + 1;
      }
      NothingLeft(events);
    }

    method DoEnqueue(event: Event)
      requires Valid() && state.todo != [] && state.todo[0] == Enqueue(event)
      modifies this`batch, this`queue, this`state, this`trace
      ensures Valid() && state.todo == old(state.todo[1..]) && old(trace) <= trace
      ensures batch == Waiting(old(batch), event)
    {
      ghost var rest := state.todo[1..];
      if HighVolume(event) {
        batch := batch + [event];
        Record(Work);
        if |batch| >= highVolumeBatch {
          assert ([Flush] + rest)[1..] == rest;
          FlushBatch();
        }
        return;
      }
      Record(Work);
      PutAfterFlush(event, rest);
      if batch != [] {
        FlushBatch();
      }
      DoPut(Single(event));
    }

    method FlushBatch()
      requires Valid() && state.todo != [] && state.todo[0] == Flush
      modifies this`batch, this`queue, this`state, this`trace
      ensures Valid() && state.todo == old(state.todo[1..]) && batch == [] && old(trace) <= trace
    {
      ghost var rest := state.todo[1..];
      if batch == [] {
        Record(Work);
        return;
      }
      var flushed := batch;
      batch := [];
      Record(Work);
      assert ([Put(Batch(flushed))] + rest)[1..] == rest;
      DoPut(Batch(flushed));
    }

    /** Non-blocking put; on a full queue the oldest delivery makes room. Consumers may run before each step. */
    method DoPut(item: Item)
      requires Valid() && state.todo != [] && state.todo[0] == Put(item)
      modifies this`queue, this`state, this`trace
      ensures Valid() && state.todo == old(state.todo[1..]) && old(trace) <= trace
    {
      ghost var rest := state.todo[1..];
      Others();
      if !Full(queue, queueSize) {
        queue := queue + [item];
        Record(Work);
        return;
      }
      Record(Work);
      assert ([Evict(item)] + rest)[1..] == rest;
      DropOldest(item);
      PutAgain(item);
    }

    /** The first part of handling a full queue: drop the oldest, if consumers left any. */
    method DropOldest(item: Item)
      requires Valid() && state.todo != [] && state.todo[0] == Evict(item)
      modifies this`queue, this`state, this`trace
      ensures Valid() && state.todo == [Retry(item)] + old(state.todo[1..]) && old(trace) <= trace
    {
      Others();
      if queue != [] {
        queue := queue[1..];
      }
      Record(Work);
    }

    /** The second: try once more. */
    method PutAgain(item: Item)
      requires Valid() && state.todo != [] && state.todo[0] == Retry(item)
      modifies this`queue, this`state, this`trace
      ensures Valid() && state.todo == old(state.todo[1..]) && old(trace) <= trace
    {
      Others();
      if !Full(queue, queueSize) {
        queue := queue + [item];
      }
      Record(Work);
    }

    method DoFlush()
      requires Valid() && state.todo == []
      modifies this
      ensures Valid() && state.todo == [] && rows == old(rows) && batch == []
      ensures old(trace) + [RequestFlush] <= trace
    {
      Record(RequestFlush);
      FlushBatch();
    }
  }
}
