/** The persistence queue: a bounded first-in first-out channel of save work items.
    A blocking write on a full channel and a blocking read on an empty one are
    modelled as outcomes that leave the queue as it was. */
module BackgroundQueue {
  import opened Wrappers
  import opened Actions

  /** How a write to the queue ends. */
  datatype EnqueueOutcome =
    | Enqueued
    | ArgumentNull(paramName: string)   // the item was null
    | WaitingForSpace                   // the channel is full; the write waits

  /** `BackgroundTaskQueue` over a bounded channel in wait mode. */
  class BackgroundTaskQueue {
    const capacity: nat
    var items: seq<SaveInfo>

    /** The channel never holds more than its capacity. */
    ghost predicate Valid()
      reads this
    {
      1 <= capacity && |items| <= capacity
    }

    /** An empty channel of the given capacity (the channel options refuse a capacity
        below one). */
    constructor (capacity: nat)
      requires capacity >= 1
      ensures Valid()
      ensures this.capacity == capacity && items == []
    {
      this.capacity := capacity;
      items := [];
    }

    /** `QueueBackgroundWorkItemAsync`: a null item is refused; otherwise it is written at the
        tail when there is room, and the write waits when the channel is full. */
    method QueueBackgroundWorkItem(workItem: Option<SaveInfo>) returns (outcome: EnqueueOutcome)
      requires Valid()
      modifies this`items
      ensures Valid()
      ensures workItem.None? ==> outcome == ArgumentNull("workItem") && items == old(items)
      ensures workItem.Some? && |old(items)| < capacity ==>
        outcome == Enqueued && items == old(items) + [workItem.value]
      ensures workItem.Some? && |old(items)| == capacity ==>
        outcome == WaitingForSpace && items == old(items)
    {
      if workItem.None? {
        return ArgumentNull("workItem");
      }
      if |items| == capacity {
        return WaitingForSpace;
      }
      items := items + [workItem.value];
      outcome := Enqueued;
    }

    /** `DequeueAsync`: the head item is removed and returned; on an empty channel the read
        waits (`None`). */
    method Dequeue() returns (workItem: Option<SaveInfo>)
      requires Valid()
      modifies this`items
      ensures Valid()
      ensures old(items) == [] ==> workItem.None? && items == []
      ensures old(items) != [] ==> workItem == Some(old(items)[0]) && items == old(items)[1..]
    {
      if items == [] {
        return None;
      }
      workItem := Some(items[0]);
      items := items[1..];
    }
  }

  /** Items come out in the order they went in. */
  method FirstInFirstOut(a: SaveInfo, b: SaveInfo) returns (first: Option<SaveInfo>, second: Option<SaveInfo>, third: Option<SaveInfo>)
    ensures first == Some(a) && second == Some(b) && third == None
  {
    var queue := new BackgroundTaskQueue(2);
    var _ := queue.QueueBackgroundWorkItem(Some(a));
    var _ := queue.QueueBackgroundWorkItem(Some(b));
    first := queue.Dequeue();
    second := queue.Dequeue();
    third := queue.Dequeue();
  }

  /** A full queue makes the next write wait instead of dropping or overwriting an item; a
      null item is refused and changes nothing. */
  method FullQueueWaits(a: SaveInfo, b: SaveInfo) returns (refused: EnqueueOutcome, blocked: EnqueueOutcome, head: Option<SaveInfo>, rest: Option<SaveInfo>)
    ensures refused == ArgumentNull("workItem") && blocked == WaitingForSpace
    ensures head == Some(a) && rest == None
  {
    var queue := new BackgroundTaskQueue(1);
    refused := queue.QueueBackgroundWorkItem(None);
    var _ := queue.QueueBackgroundWorkItem(Some(a));
    blocked := queue.QueueBackgroundWorkItem(Some(b));
    head := queue.Dequeue();
    rest := queue.Dequeue();
  }
}
