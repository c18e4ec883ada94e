/** The bounded drop-on-full event queue (src/analytics/bounded_click_event_queue.cpp). */
module ClickQueue {
  import opened ClickEvents
  import opened Wrappers

  datatype QueueStats = QueueStats(depth: nat, enqueuedTotal: nat, droppedTotal: nat)

  /** Contents, front first, and the two counters. */
  datatype Queue = Queue(capacity: nat, items: seq<ClickEvent>, enqueuedTotal: nat, droppedTotal: nat, stop: bool)

  predicate WellFormed(q: Queue) {
    0 < q.capacity && |q.items| <= q.capacity
  }

  /** `allocates` is false when the push throws; the event is then dropped like on a full queue. */
  function Enqueue(q: Queue, e: ClickEvent, allocates: bool): (Queue, bool) {
    if |q.items| >= q.capacity || !allocates then (q.(droppedTotal := q.droppedTotal + 1), false)
    else (q.(items := q.items + [e], enqueuedTotal := q.enqueuedTotal + 1), true)
  }

  class BoundedClickEventQueue {
    const capacity: nat
    var items: seq<ClickEvent>
    var enqueuedTotal: nat
    var droppedTotal: nat
    var stop: bool

    /** The source throws on capacity 0. */
    constructor (capacity: nat)
      requires capacity > 0
      ensures Abstract() == Queue(capacity, [], 0, 0, false)
    {
      this.capacity, items, enqueuedTotal, droppedTotal, stop := capacity, [], 0, 0, false;
    }

    ghost function Abstract(): Queue
      reads this
    {
      Queue(capacity, items, enqueuedTotal, droppedTotal, stop)
    }

    method TryEnqueue(e: ClickEvent, allocates: bool) returns (enqueued: bool)
      requires WellFormed(Abstract())
      modifies this
      ensures (Abstract(), enqueued) == Enqueue(old(Abstract()), e, allocates)
      ensures WellFormed(Abstract())
      ensures enqueued <==> |old(items)| < capacity && allocates
      ensures items == if enqueued then old(items) + [e] else old(items)
      ensures (enqueuedTotal, droppedTotal) == (old(enqueuedTotal) + (if enqueued then 1 else 0), old(droppedTotal) + (if enqueued then 0 else 1))
    {
      if |items| >= capacity {
        droppedTotal := droppedTotal + 1;
        return false;
      }
      if !allocates {
        droppedTotal := droppedTotal + 1;
        return false;
      }
      items := items + [e];
      enqueuedTotal := enqueuedTotal + 1;
      return true;
    }

    method TryDequeue() returns (e: Option<ClickEvent>)
      modifies this`items
      ensures e.None? <==> old(items) == []
      ensures e.None? ==> items == old(items)
      ensures e.Some? ==> old(items) == [e.value] + items
    {
      if items == [] {
        return None;
      }
      e := Some(items[0]);
      items := items[1..];
    }

    /**
     The wait ends when the queue is non-empty, when stop is set, or at the timeout; here it has
     ended.  In each of the three cases an event is returned exactly when there is one.
     */
    method WaitDequeue(timedOut: bool) returns (e: Option<ClickEvent>)
      requires items != [] || stop || timedOut
      modifies this`items
      ensures e.None? <==> old(items) == []
      ensures e.None? ==> items == old(items)
      ensures e.Some? ==> old(items) == [e.value] + items
    {
      if !(items != [] || stop) {
        return None;
      }
      if items == [] {
        return None;
      }
      e := Some(items[0]);
      items := items[1..];
    }

    method GetStats() returns (stats: QueueStats)
      ensures stats == QueueStats(|items|, enqueuedTotal, droppedTotal)
    {
      return QueueStats(|items|, enqueuedTotal, droppedTotal);
    }

    method NotifyStop()
      modifies this`stop
      ensures stop
    {
      stop := true;
    }
  }
}
