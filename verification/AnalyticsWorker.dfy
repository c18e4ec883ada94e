/**
 The batching worker (src/analytics/analytics_worker.cpp) with any number of producers.

 The queue operations hold the queue's lock and the worker's state is atomic, so each is one step of
 a state machine; producers, the worker thread and the thread that calls Start and Stop interleave
 freely.  Only the worker writes the event table, so persisting a batch is one step.  The system
 carries its history: what was offered and accepted, and the batches flushed so far.
 */
module AnalyticsWorker {
  import opened ClickEvents
  import opened ClickEventTable
  import opened ClickQueue

  datatype Config = Config(enabled: bool, queueCapacity: nat, batchSize: nat, maxRetries: nat)

  /** The checks of AnalyticsConfig::Validate that concern the pipeline. */
  predicate Validated(c: Config) {
    0 < c.batchSize <= c.queueCapacity
  }

  datatype Lifecycle = Stopped | Running | Stopping

  /** Where the worker thread stands. */
  datatype Phase =
    | NoThread
    | LoopTest
    | Collecting(batch: seq<ClickEvent>)
    | Persisting(batch: seq<ClickEvent>)
    | CheckState
    | CheckDepth
    | Exited

  /** Where the thread inside Stop stands. */
  datatype Stopper = Away | ToNotify | ToJoin

  /** One batch handed to PersistWithRetry, how many of its rows were written, and what it reported. */
  datatype Flush = Flush(batch: seq<ClickEvent>, written: nat, ok: bool)

  datatype System = System(
    config: Config, queue: Queue, life: Lifecycle, stopper: Stopper, phase: Phase, rows: seq<ClickEvent>,
    persistedMetric: nat, failureMetric: nat,
    offered: nat, accepted: seq<ClickEvent>, flushed: seq<Flush>, flushes: nat)

  function Initial(config: Config, rows: seq<ClickEvent>): System {
    System(config, Queue(config.queueCapacity, [], 0, 0, false), Stopped, Away, NoThread, rows, 0, 0, 0, [], [], 0)
  }

  datatype Step =
    | Offer(e: ClickEvent, allocates: bool)   // a producer calls TryEnqueue
    | Start
    | RequestStop                             // Stop sets the state ...
    | Notify                                  // ... wakes the queue ...
    | Join                                    // ... and waits for the thread to end
    | Work(outcome: Attempt)                  // the worker's next step; `outcome` only matters when persisting

  function OfferStep(s: System, e: ClickEvent, allocates: bool): System {
    var (q, ok) := Enqueue(s.queue, e, allocates);
    s.(queue := q, offered := s.offered + 1, accepted := if ok then s.accepted + [e] else s.accepted)
  }

  /** The worker gets an event exactly when the queue has one (see WaitDequeue and TryDequeue). */
  function CollectStep(s: System): System
    requires s.phase.Collecting?
  {
    var batch := s.phase.batch;
    if |batch| < s.config.batchSize && s.queue.items != [] then
      s.(phase := Collecting(batch + [s.queue.items[0]]), queue := s.queue.(items := s.queue.items[1..]))
    else if batch == [] then s.(phase := CheckState, flushes := s.flushes + 1)
    else s.(phase := Persisting(batch))
  }

  function PersistStep(s: System, outcome: Attempt): System
    requires s.phase.Persisting?
  {
    var batch := s.phase.batch;
    var n, ok := Min(outcome.reach, |batch|), Succeeds(outcome, |batch|);
    var s1 := s.(phase := CheckState, flushes := s.flushes + 1, flushed := s.flushed + [Flush(batch, n, ok)],
                 rows := InsertAll(s.rows, batch[..n]));
    if ok then s1.(persistedMetric := s.persistedMetric + |batch|)
    else s1.(failureMetric := s.failureMetric + 1)
  }

  function WorkStep(s: System, outcome: Attempt): System {
    match s.phase
    case NoThread => s
    case LoopTest => s.(phase := if s.life == Stopped then Exited else Collecting([]))
    case Collecting(_) => CollectStep(s)
    case Persisting(_) => PersistStep(s, outcome)
    case CheckState => s.(phase := if s.life == Stopping then CheckDepth else LoopTest)
    case CheckDepth => s.(phase := if |s.queue.items| == 0 then Exited else LoopTest)
    case Exited => s
  }

  /** A step that cannot happen in a state does nothing. */
  function Next(s: System, step: Step): System {
    match step
    case Offer(e, allocates) => OfferStep(s, e, allocates)
    case Start =>
      if !s.config.enabled || s.life != Stopped || s.stopper != Away then s
      else s.(life := Running, phase := LoopTest)
    case RequestStop => if s.life != Running || s.stopper != Away then s else s.(life := Stopping, stopper := ToNotify)
    case Notify => if s.stopper != ToNotify then s else s.(queue := s.queue.(stop := true), stopper := ToJoin)
    case Join => if s.stopper != ToJoin || s.phase != Exited then s else s.(life := Stopped, stopper := Away)
    case Work(outcome) => WorkStep(s, outcome)
  }

  function After(s: System, steps: seq<Step>): System {
    if steps == [] then s else Next(After(s, steps[..|steps| - 1]), steps[|steps| - 1])
  }

  // ----- FlushOnce as the source writes it -----

  class Worker {
    const config: Config
    const queue: BoundedClickEventQueue
    const table: Table
    var persistedMetric: nat
    var failureMetric: nat

    constructor (config: Config, queue: BoundedClickEventQueue, table: Table)
      ensures this.config == config && this.queue == queue && this.table == table
      ensures persistedMetric == failureMetric == 0
    {
      this.config, this.queue, this.table, persistedMetric, failureMetric := config, queue, table, 0, 0;
    }

    /** The worker as a state of the machine, about to fill a batch. */
    ghost function Abstract(): System
      reads this, queue, table
    {
      System(config, queue.Abstract(), Running, Away, Collecting([]), table.rows, persistedMetric, failureMetric, 0, [], [], 0)
    }

    /**
     One flush with no producer coming in between.  `waits` is how many dequeues happen before the
     deadline; `tries` is what becomes of each attempt to persist.  The batch is the front of the queue,
     and what is left is what the machine's own flush leaves (see FlushAlone).
     */
    method FlushOnce(waits: nat, tries: nat -> Attempt) returns (batch: seq<ClickEvent>, persisted: bool)
      modifies this, queue`items, table
      ensures var k := Min(config.batchSize, |old(queue.items)|);
              batch == old(queue.items)[..k] && queue.items == old(queue.items)[k..]
      ensures batch == [] ==>
                table.rows == old(table.rows) && persistedMetric == old(persistedMetric) && failureMetric == old(failureMetric)
      ensures batch != [] ==>
                persistedMetric == old(persistedMetric) + (if persisted then |batch| else 0)
                && failureMetric == old(failureMetric) + (if persisted then 0 else 1)
      ensures batch != [] && persisted ==> table.rows == InsertAll(old(table.rows), batch)
      ensures batch != [] && !persisted ==>
                table.rows == InsertAll(old(table.rows), batch[..Furthest(tries, config.maxRetries + 1, |batch|)])
      ensures batch != [] ==> (persisted <==> exists i :: 0 <= i <= config.maxRetries && Succeeds(tries(i), |batch|))
      ensures SameData(Abstract(), Flushed(old(Abstract()), Attempt(Furthest(tries, config.maxRetries + 1, |batch|), persisted)))
    {
      batch := Collect(waits);
      persisted := false;
      if batch != [] {
        persisted := Persist(batch, tries);
        FurthestIsAll(tries, config.maxRetries + 1, |batch|);
        assert batch[..|batch|] == batch;
      }
    }

    /** The loop that fills the batch. */
    method Collect(waits: nat) returns (batch: seq<ClickEvent>)
      modifies queue`items
      ensures var k := Min(config.batchSize, |old(queue.items)|);
              batch == old(queue.items)[..k] && queue.items == old(queue.items)[k..]
    {
      batch := [];
      ghost var start := queue.items;
      while |batch| < config.batchSize
        invariant |batch| <= config.batchSize && start == batch + queue.items
      {
        var e;
        if |batch| < waits {
          e := queue.WaitDequeue(true);
        } else {
          e := queue.TryDequeue();
        }
        if e.None? {
          break;
        }
        ghost var taken := [e.value];
        assert start == batch + (taken + queue.items) == (batch + taken) + queue.items;
        batch := batch + [e.value];
      }
      assert batch == start[..|batch|] && queue.items == start[|batch|..];
    }

    /** Persists a batch and reports the outcome to the metrics. */
    method Persist(batch: seq<ClickEvent>, tries: nat -> Attempt) returns (persisted: bool)
      modifies this, table
      ensures persistedMetric == old(persistedMetric) + (if persisted then |batch| else 0)
      ensures failureMetric == old(failureMetric) + (if persisted then 0 else 1)
      ensures persisted ==> table.rows == InsertAll(old(table.rows), batch)
      ensures !persisted ==> table.rows == InsertAll(old(table.rows), batch[..Furthest(tries, config.maxRetries + 1, |batch|)])
      ensures persisted <==> exists i :: 0 <= i <= config.maxRetries && Succeeds(tries(i), |batch|)
    {
      var attempts;
      persisted, attempts := table.PersistWithRetry(batch, config.maxRetries, tries);
      if persisted {
        persistedMetric := persistedMetric + |batch|;
      } else {
        failureMetric := failureMetric + 1;
      }
    }
  }

  // ----- the worker's steps with nothing in between are FlushOnce -----

  const NO_ROWS := Attempt(0, false)

  function Repeat(step: Step, n: nat): seq<Step> {
    if n == 0 then [] else Repeat(step, n - 1) + [step]
  }

  /** The worker after taking `k` events into its batch. */
  function Holding(s: System, k: nat): System
    requires k <= |s.queue.items|
  {
    s.(phase := Collecting(s.queue.items[..k]), queue := s.queue.(items := s.queue.items[k..]))
  }

  lemma TakeOne(s: System, k: nat, outcome: Attempt)
    requires k < s.config.batchSize && k < |s.queue.items|
    ensures WorkStep(Holding(s, k), outcome) == Holding(s, k + 1)
  {
    var items := s.queue.items;
    assert items[..k] + [items[k..][0]] == items[..k + 1];
    assert items[k..][1..] == items[k + 1..];
  }

  lemma {:induction false} CollectAlone(s: System, k: nat, outcome: Attempt)
    requires s.phase == Collecting([]) && k <= s.config.batchSize && k <= |s.queue.items|
    ensures After(s, Repeat(Work(outcome), k)) == Holding(s, k)
  {
    if k == 0 {
      assert s.queue.items[..0] == [] && s.queue.items[0..] == s.queue.items;
      assert s.queue.(items := s.queue.items[0..]) == s.queue;
    } else {
      CollectAlone(s, k - 1, outcome);
      AfterLast(s, Repeat(Work(outcome), k - 1), Work(outcome));
      TakeOne(s, k - 1, outcome);
    }
  }

  /** The state after one flush, whose persisting has the given outcome: the front of the queue is taken, then persisted. */
  function Flushed(s: System, outcome: Attempt): System {
    var k := Min(s.config.batchSize, |s.queue.items|);
    if k == 0 then Holding(s, 0).(phase := CheckState, flushes := s.flushes + 1)
    else PersistStep(Holding(s, k).(phase := Persisting(s.queue.items[..k])), outcome)
  }

  /** Queue, table and metrics agree. */
  predicate SameData(a: System, b: System) {
    a.config == b.config && a.queue == b.queue && a.rows == b.rows
    && a.persistedMetric == b.persistedMetric && a.failureMetric == b.failureMetric
  }

  lemma {:induction false} FurthestIsAll(tries: nat -> Attempt, n: nat, size: nat)
    requires size > 0
    ensures Furthest(tries, n, size) == size <==> exists i :: 0 <= i < n && tries(i).reach >= size
  {
    if n > 0 {
      FurthestIsAll(tries, n - 1, size);
    }
  }

  /** The worker's steps with nothing in between, from the start of a flush, are the flush of `Flushed`. */
  lemma {:induction false} FlushAlone(s: System, outcome: Attempt)
    requires s.phase == Collecting([])
    ensures var k := Min(s.config.batchSize, |s.queue.items|);
            After(s, Repeat(Work(outcome), if k == 0 then 1 else k + 2)) == Flushed(s, outcome)
  {
    var k := Min(s.config.batchSize, |s.queue.items|);
    CollectedAlone(s, k, outcome);
    if k > 0 {
      RepeatOnce(s, Work(outcome), k + 1);
      PersistsNext(s, k, outcome);
    }
  }

  lemma {:induction false} CollectedAlone(s: System, k: nat, outcome: Attempt)
    requires s.phase == Collecting([]) && k == Min(s.config.batchSize, |s.queue.items|)
    ensures After(s, Repeat(Work(outcome), k + 1))
         == if k == 0 then Flushed(s, outcome) else Holding(s, k).(phase := Persisting(s.queue.items[..k]))
  {
    CollectAlone(s, k, outcome);
    RepeatOnce(s, Work(outcome), k);
    StopCollecting(s, k, outcome);
  }

  lemma PersistsNext(s: System, k: nat, outcome: Attempt)
    requires 0 < k == Min(s.config.batchSize, |s.queue.items|)
    ensures Next(Holding(s, k).(phase := Persisting(s.queue.items[..k])), Work(outcome)) == Flushed(s, outcome)
  {
  }

  lemma RepeatOnce(s: System, step: Step, n: nat)
    ensures After(s, Repeat(step, n + 1)) == Next(After(s, Repeat(step, n)), step)
  {
    AfterLast(s, Repeat(step, n), step);
  }

  lemma StopCollecting(s: System, k: nat, outcome: Attempt)
    requires k == Min(s.config.batchSize, |s.queue.items|)
    ensures WorkStep(Holding(s, k), outcome)
         == if k == 0 then Holding(s, k).(phase := CheckState, flushes := s.flushes + 1)
            else Holding(s, k).(phase := Persisting(s.queue.items[..k]))
  {
  }

  lemma {:induction false} AfterLast(s: System, steps: seq<Step>, step: Step)
    ensures After(s, steps + [step]) == Next(After(s, steps), step)
  {
    assert (steps + [step])[..|steps|] == steps;
  }

  // ----- nothing is lost or reordered -----

  function InHand(phase: Phase): seq<ClickEvent> {
    match phase
    case Collecting(batch) => batch
    case Persisting(batch) => batch
    case _ => []
  }

  function Events(flushed: seq<Flush>): seq<ClickEvent> {
    if flushed == [] then [] else Events(flushed[..|flushed| - 1]) + flushed[|flushed| - 1].batch
  }

  /** The table as the flushes so far have left it. */
  function Written(rows: seq<ClickEvent>, flushed: seq<Flush>): seq<ClickEvent> {
    if flushed == [] then rows else
      var last := flushed[|flushed| - 1];
      InsertAll(Written(rows, flushed[..|flushed| - 1]), last.batch[..Min(last.written, |last.batch|)])
  }

  function PersistedCount(flushed: seq<Flush>): nat {
    if flushed == [] then 0 else
      var last := flushed[|flushed| - 1];
      PersistedCount(flushed[..|flushed| - 1]) + (if last.ok then |last.batch| else 0)
  }

  function FailedCount(flushed: seq<Flush>): nat {
    if flushed == [] then 0 else
      var last := flushed[|flushed| - 1];
      FailedCount(flushed[..|flushed| - 1]) + (if last.ok then 0 else 1)
  }

  /** A batch reported as persisted is in the table as a whole; one reported as failed may be, too. */
  ghost predicate Honest(flushed: seq<Flush>) {
    forall i :: 0 <= i < |flushed| ==> flushed[i].written <= |flushed[i].batch| && (flushed[i].ok ==> flushed[i].written == |flushed[i].batch|)
  }

  /** Table, metrics and batches are what the flushes made them. */
  ghost predicate TableAccounted(flushed: seq<Flush>, rows: seq<ClickEvent>, persisted: nat, failed: nat, batchSize: nat, rows0: seq<ClickEvent>) {
    && rows == Written(rows0, flushed)
    && persisted == PersistedCount(flushed) && failed == FailedCount(flushed)
    && (forall i :: 0 <= i < |flushed| ==> 1 <= |flushed[i].batch| <= batchSize)
    && Honest(flushed)
  }

  ghost predicate Accounted(s: System, rows0: seq<ClickEvent>) {
    && s.accepted == Events(s.flushed) + InHand(s.phase) + s.queue.items
    && |s.queue.items| <= s.queue.capacity == s.config.queueCapacity
    && s.offered == s.queue.enqueuedTotal + s.queue.droppedTotal
    && s.queue.enqueuedTotal == |s.accepted|
    && TableAccounted(s.flushed, s.rows, s.persistedMetric, s.failureMetric, s.config.batchSize, rows0)
    && |InHand(s.phase)| <= s.config.batchSize
    && (s.phase.Persisting? ==> s.phase.batch != [])
    && (s.phase.NoThread? || s.phase.Exited? || s.life != Stopped)
  }

  lemma {:induction false} FlushedLast(flushed: seq<Flush>, f: Flush, rows: seq<ClickEvent>)
    ensures Events(flushed + [f]) == Events(flushed) + f.batch
    ensures Written(rows, flushed + [f]) == InsertAll(Written(rows, flushed), f.batch[..Min(f.written, |f.batch|)])
    ensures PersistedCount(flushed + [f]) == PersistedCount(flushed) + (if f.ok then |f.batch| else 0)
    ensures FailedCount(flushed + [f]) == FailedCount(flushed) + (if f.ok then 0 else 1)
  {
    assert (flushed + [f])[..|flushed|] == flushed;
  }

  lemma {:induction false} PersistKeepsAccount(s: System, outcome: Attempt, rows0: seq<ClickEvent>)
    requires Accounted(s, rows0) && s.phase.Persisting?
    ensures Accounted(PersistStep(s, outcome), rows0)
  {
    var f := Flush(s.phase.batch, Min(outcome.reach, |s.phase.batch|), Succeeds(outcome, |s.phase.batch|));
    PersistedFields(s, outcome, f, PersistStep(s, outcome));
    PersistedTable(s, f, PersistStep(s, outcome), rows0);
    EventsLast(s.flushed, f, s.queue.items);
    PersistedAccount(s, f, PersistStep(s, outcome), rows0);
  }

  /** A flush by its effect on the state. */
  ghost predicate IsFlushed(s: System, f: Flush, s': System) {
    && s.phase == Persisting(f.batch) && f.written <= |f.batch| && (f.ok ==> f.written == |f.batch|)
    && s' == s.(phase := CheckState, flushes := s.flushes + 1, flushed := s.flushed + [f], rows := InsertAll(s.rows, f.batch[..f.written]),
                persistedMetric := s.persistedMetric + (if f.ok then |f.batch| else 0),
                failureMetric := s.failureMetric + (if f.ok then 0 else 1))
  }

  lemma {:induction false} PersistedFields(s: System, outcome: Attempt, f: Flush, s': System)
    requires s.phase.Persisting? && s' == PersistStep(s, outcome)
    requires f == Flush(s.phase.batch, Min(outcome.reach, |s.phase.batch|), Succeeds(outcome, |s.phase.batch|))
    ensures IsFlushed(s, f, s')
  {
  }

  lemma {:induction false} PersistedTable(s: System, f: Flush, s': System, rows0: seq<ClickEvent>)
    requires TableAccounted(s.flushed, s.rows, s.persistedMetric, s.failureMetric, s.config.batchSize, rows0) && IsFlushed(s, f, s')
    requires 1 <= |f.batch| <= s.config.batchSize
    ensures TableAccounted(s'.flushed, s'.rows, s'.persistedMetric, s'.failureMetric, s'.config.batchSize, rows0)
  {
    TableAfterFlush(s.flushed, f, s.rows, s.persistedMetric, s.failureMetric, s.config.batchSize, rows0);
  }

  lemma {:induction false} PersistedAccount(s: System, f: Flush, s': System, rows0: seq<ClickEvent>)
    requires Accounted(s, rows0) && IsFlushed(s, f, s')
    requires Events(s'.flushed) + [] + s.queue.items == Events(s.flushed) + f.batch + s.queue.items
    requires TableAccounted(s'.flushed, s'.rows, s'.persistedMetric, s'.failureMetric, s'.config.batchSize, rows0)
    ensures Accounted(s', rows0)
  {
  }

  lemma {:induction false} TableAfterFlush(flushed: seq<Flush>, f: Flush, rows: seq<ClickEvent>, persisted: nat, failed: nat, batchSize: nat, rows0: seq<ClickEvent>)
    requires TableAccounted(flushed, rows, persisted, failed, batchSize, rows0)
    requires 1 <= |f.batch| <= batchSize && f.written <= |f.batch| && (f.ok ==> f.written == |f.batch|)
    ensures TableAccounted(flushed + [f], InsertAll(rows, f.batch[..f.written]),
                           persisted + (if f.ok then |f.batch| else 0), failed + (if f.ok then 0 else 1), batchSize, rows0)
  {
    FlushedLast(flushed, f, rows0);
  }

  lemma {:induction false} EventsLast(flushed: seq<Flush>, f: Flush, items: seq<ClickEvent>)
    ensures Events(flushed + [f]) + [] + items == Events(flushed) + f.batch + items
  {
    assert (flushed + [f])[..|flushed|] == flushed;
  }

  lemma CollectKeepsAccount(s: System, rows0: seq<ClickEvent>)
    requires Accounted(s, rows0) && s.phase.Collecting?
    ensures Accounted(CollectStep(s), rows0)
  {
    var s' := CollectStep(s);
    assert Events(s.flushed) + InHand(s'.phase) + s'.queue.items == s.accepted;
  }

  lemma OfferKeepsAccount(s: System, e: ClickEvent, allocates: bool, rows0: seq<ClickEvent>)
    requires Accounted(s, rows0)
    ensures Accounted(OfferStep(s, e, allocates), rows0)
  {
  }

  lemma NextKeepsAccount(s: System, step: Step, rows0: seq<ClickEvent>)
    requires Accounted(s, rows0)
    ensures Accounted(Next(s, step), rows0)
  {
    match step
    case Offer(e, allocates) => OfferKeepsAccount(s, e, allocates, rows0);
    case Work(outcome) =>
      if s.phase.Collecting? {
        CollectKeepsAccount(s, rows0);
      } else if s.phase.Persisting? {
        PersistKeepsAccount(s, outcome, rows0);
      } else {
        SameAccount(s, Next(s, step), rows0);
      }
    case _ => SameAccount(s, Next(s, step), rows0);
  }

  /** Steps that only move the control of a thread. */
  lemma SameAccount(s: System, s': System, rows0: seq<ClickEvent>)
    requires Accounted(s, rows0)
    requires s' == s.(life := s'.life, stopper := s'.stopper, phase := s'.phase, queue := s.queue.(stop := s'.queue.stop))
    requires InHand(s'.phase) == InHand(s.phase) && (s'.phase.Persisting? ==> s'.phase == s.phase)
    requires s'.phase.NoThread? || s'.phase.Exited? || s'.life != Stopped
    ensures Accounted(s', rows0)
  {
  }

  /**
   At every point of every interleaving: the accepted events, in order, are those of the flushed
   batches, then the batch in hand, then the queue; the queue is within its capacity; every offer
   was either enqueued or dropped; and the table and the metrics are what the flushes made them.
   */
  lemma {:induction false} NothingLost(config: Config, rows0: seq<ClickEvent>, steps: seq<Step>)
    ensures Accounted(After(Initial(config, rows0), steps), rows0)
  {
    if steps != [] {
      NothingLost(config, rows0, steps[..|steps| - 1]);
      NextKeepsAccount(After(Initial(config, rows0), steps[..|steps| - 1]), steps[|steps| - 1], rows0);
    }
  }

  /** The offers of a run that found the queue full or could not be stored. */
  ghost function LostOffers(config: Config, rows0: seq<ClickEvent>, steps: seq<Step>): set<int> {
    set i | 0 <= i < |steps| && steps[i].Offer?
            && (|After(Initial(config, rows0), steps[..i]).queue.items| == config.queueCapacity || !steps[i].allocates)
  }

  /** An event is dropped exactly when it finds the queue full or cannot be stored, in every interleaving; the total counts those. */
  lemma {:induction false} DropsAreExact(config: Config, rows0: seq<ClickEvent>, steps: seq<Step>)
    ensures After(Initial(config, rows0), steps).queue.droppedTotal == |LostOffers(config, rows0, steps)|
  {
    if steps != [] {
      var n := |steps| - 1;
      DropsAreExact(config, rows0, steps[..n]);
      NothingLost(config, rows0, steps[..n]);
      var s := After(Initial(config, rows0), steps[..n]);
      var lost := steps[n].Offer? && (|s.queue.items| == config.queueCapacity || !steps[n].allocates);
      ConfigFixed(Initial(config, rows0), steps[..n]);
      LostOffersLast(config, rows0, steps, lost);
      StepDrops(s, steps[n]);
    }
  }

  lemma {:induction false} LostOffersLast(config: Config, rows0: seq<ClickEvent>, steps: seq<Step>, lost: bool)
    requires steps != []
    requires var n := |steps| - 1;
             lost <==> steps[n].Offer? && (|After(Initial(config, rows0), steps[..n]).queue.items| == config.queueCapacity || !steps[n].allocates)
    ensures |LostOffers(config, rows0, steps)| == |LostOffers(config, rows0, steps[..|steps| - 1])| + (if lost then 1 else 0)
  {
    var n := |steps| - 1;
    assert forall i :: 0 <= i < n ==> steps[..n][i] == steps[i] && steps[..n][..i] == steps[..i];
    assert LostOffers(config, rows0, steps) == LostOffers(config, rows0, steps[..n]) + (if lost then {n} else {});
  }

  lemma {:induction false} StepDrops(s: System, step: Step)
    requires |s.queue.items| <= s.queue.capacity
    ensures Next(s, step).queue.droppedTotal
         == s.queue.droppedTotal + (if step.Offer? && (|s.queue.items| == s.queue.capacity || !step.allocates) then 1 else 0)
  {
  }

  /** A worker that is not enabled never starts. */
  lemma {:induction false} DisabledNeverRuns(config: Config, rows0: seq<ClickEvent>, steps: seq<Step>)
    requires !config.enabled
    ensures var s := After(Initial(config, rows0), steps); s.phase == NoThread && s.life == Stopped && s.flushed == [] && s.rows == rows0
  {
    if steps != [] {
      DisabledNeverRuns(config, rows0, steps[..|steps| - 1]);
      ConfigFixed(Initial(config, rows0), steps[..|steps| - 1]);
    }
  }

  /** When no flush failed, the table is what inserting the flushed events one by one gives. */
  lemma {:induction false} AllPersisted(rows0: seq<ClickEvent>, flushed: seq<Flush>)
    requires Honest(flushed) && FailedCount(flushed) == 0
    ensures Written(rows0, flushed) == InsertAll(rows0, Events(flushed))
  {
    if flushed != [] {
      var last := flushed[|flushed| - 1];
      AllPersisted(rows0, flushed[..|flushed| - 1]);
      InsertAllConcat(rows0, Events(flushed[..|flushed| - 1]), last.batch);
      assert last.batch[..Min(last.written, |last.batch|)] == last.batch;
    }
  }

  lemma {:induction false} WrittenIsKeyed(rows0: seq<ClickEvent>, flushed: seq<Flush>)
    requires KeyUnique(rows0)
    ensures KeyUnique(Written(rows0, flushed)) && rows0 <= Written(rows0, flushed)
  {
    if flushed != [] {
      var n := |flushed| - 1;
      WrittenIsKeyed(rows0, flushed[..n]);
      InsertAllGrows(Written(rows0, flushed[..n]), flushed[n].batch[..Min(flushed[n].written, |flushed[n].batch|)]);
    }
  }

  /** Rows of a batch reported as persisted are not lost to later flushes, failed ones included. */
  lemma {:induction false} PersistedStays(rows0: seq<ClickEvent>, flushed: seq<Flush>, i: nat, k: nat)
    requires Honest(flushed) && i < |flushed| && flushed[i].ok && k < |flushed[i].batch|
    ensures HasId(Written(rows0, flushed), flushed[i].batch[k].eventId)
  {
    var n := |flushed| - 1;
    var before, last := Written(rows0, flushed[..n]), flushed[n];
    var part := last.batch[..Min(last.written, |last.batch|)];
    InsertAllGrows(before, part);
    if i == n {
      assert part == last.batch;
    } else {
      PersistedStays(rows0, flushed[..n], i, k);
      var j :| 0 <= j < |before| && before[j].eventId == flushed[i].batch[k].eventId;
      assert InsertAll(before, part)[j] == before[j];
    }
  }

  /**
   What it means that a batch was reported as persisted: at every later point of every interleaving, and
   whatever other flushes failed half-way, each of its events is in the table exactly once, and
   every row that was there before the run still is.
   */
  lemma {:induction false} PersistedExactlyOnce(config: Config, rows0: seq<ClickEvent>, steps: seq<Step>, s: System, i: nat, k: nat)
    requires KeyUnique(rows0) && s == After(Initial(config, rows0), steps)
    requires i < |s.flushed| && s.flushed[i].ok && k < |s.flushed[i].batch|
    ensures Occurrences(s.rows, s.flushed[i].batch[k].eventId) == 1 && rows0 <= s.rows
  {
    NothingLost(config, rows0, steps);
    WrittenIsKeyed(rows0, s.flushed);
    PersistedStays(rows0, s.flushed, i, k);
    OccurrencesBound(s.rows, s.flushed[i].batch[k].eventId);
  }

  // ----- the draining shutdown -----

  /** Batches of size `b` needed for `d` events. */
  function Batches(d: nat, b: nat): nat
    requires b > 0
  {
    if d == 0 then 0 else if d <= b then 1 else 1 + Batches(d - b, b)
  }

  /** `Batches(d, b)` is the quotient rounded up. */
  lemma {:induction false} BatchesIsCeiling(d: nat, b: nat)
    requires b > 0
    ensures d <= Batches(d, b) * b < d + b
  {
    if d > b {
      BatchesIsCeiling(d - b, b);
    }
  }

  lemma {:induction false} BatchesMonotone(d: nat, e: nat, b: nat)
    requires b > 0 && d <= e
    ensures Batches(d, b) <= Batches(e, b)
  {
    if d > b {
      BatchesMonotone(d - b, e - b, b);
    }
  }

  /** Stop has been requested, or has been completed. */
  predicate Draining(s: System) {
    && 0 < s.config.batchSize
    && !s.phase.NoThread?
    && (s.life == Stopping || (s.life == Stopped && s.phase == Exited))
    && |InHand(s.phase)| <= s.config.batchSize
  }

  /** How many more calls of FlushOnce the worker can still finish. */
  function FlushesLeft(s: System): nat
    requires Draining(s)
  {
    var d, b := |s.queue.items|, s.config.batchSize;
    match s.phase
    case LoopTest => if d == 0 then 1 else Batches(d, b)
    case Collecting(batch) => var room := b - |batch|; 1 + (if d <= room then 0 else Batches(d - room, b))
    case Persisting(_) => 1 + Batches(d, b)
    case CheckState => Batches(d, b)
    case CheckDepth => Batches(d, b)
    case Exited => 0
  }

  function Rank(phase: Phase): nat {
    match phase
    case NoThread => 0
    case Exited => 0
    case Persisting(_) => 2
    case Collecting(_) => 3
    case LoopTest => 4
    case CheckDepth => 5
    case CheckState => 6
  }

  /** A bound on the worker steps until the thread ends. */
  function WorkLeft(s: System): nat
    requires Draining(s)
  {
    if s.phase == Exited then 0 else |s.queue.items| + 5 * FlushesLeft(s) + Rank(s.phase)
  }

  predicate Ceased(step: Step) {
    !step.Offer? && !step.Start?
  }

  /** Each worker step gets closer to the end, and a finished flush is paid for. */
  lemma WorkDrains(s: System, outcome: Attempt)
    requires Draining(s)
    ensures var s' := Next(s, Work(outcome));
            && Draining(s')
            && s'.flushes + FlushesLeft(s') <= s.flushes + FlushesLeft(s)
            && (s.phase == Exited ==> s' == s)
            && (s.phase != Exited ==> WorkLeft(s') < WorkLeft(s))
            && (s'.phase == Exited && s.phase != Exited ==> s'.queue.items == [])
            && |s'.queue.items| <= |s.queue.items|
  {
  }

  lemma OthersDrain(s: System, step: Step)
    requires Draining(s) && Ceased(step) && !step.Work?
    ensures var s' := Next(s, step);
            && Draining(s') && s'.flushes == s.flushes && s'.phase == s.phase
            && s'.queue.items == s.queue.items
            && FlushesLeft(s') == FlushesLeft(s) && WorkLeft(s') == WorkLeft(s)
  {
  }

  function WorkSteps(steps: seq<Step>): nat {
    if steps == [] then 0 else WorkSteps(steps[..|steps| - 1]) + (if steps[|steps| - 1].Work? then 1 else 0)
  }

  lemma {:induction false} DrainRun(s: System, steps: seq<Step>)
    requires Draining(s)
    requires forall i :: 0 <= i < |steps| ==> Ceased(steps[i])
    ensures var s' := After(s, steps);
            && Draining(s')
            && s'.flushes + FlushesLeft(s') <= s.flushes + FlushesLeft(s)
            && (s'.phase == Exited || WorkSteps(steps) + WorkLeft(s') <= WorkLeft(s))
            && (s'.phase == Exited ==> s'.queue.items == if s.phase == Exited then s.queue.items else [])
            && (s.phase == Exited ==> s'.phase == Exited)
  {
    if steps != [] {
      var n := |steps| - 1;
      DrainRun(s, steps[..n]);
      var mid := After(s, steps[..n]);
      if steps[n].Work? {
        WorkDrains(mid, steps[n].outcome);
      } else {
        OthersDrain(mid, steps[n]);
      }
    }
  }

  lemma FlushesLeftBound(s: System)
    requires Draining(s)
    ensures FlushesLeft(s) <= Batches(|s.queue.items|, s.config.batchSize) + 1
  {
    if s.phase.Collecting? {
      var d, b := |s.queue.items|, s.config.batchSize;
      var room := b - |s.phase.batch|;
      if d > room {
        BatchesMonotone(d - room, d, b);
      }
    }
  }

  /**
   The shutdown.  Take any reachable state in which Stop has been requested or the thread has ended,
   with `d` events queued, and let the producers cease.  However the remaining steps interleave: at
   most ceil(d / batchSize) + 1 more flushes finish, and the thread has ended once the worker has taken
   d + 5 * (ceil(d / batchSize) + 1) + 6 steps, whatever else was scheduled in between.  When it has
   ended, every event ever accepted went through a flush exactly when at that earlier moment the
   thread was still there or the queue was empty; otherwise what was queued then stays queued.
   */
  lemma {:induction false} ShutdownDrains(config: Config, rows0: seq<ClickEvent>, before: seq<Step>, steps: seq<Step>)
    requires Validated(config)
    requires var s := After(Initial(config, rows0), before); s.life == Stopping || s.phase == Exited
    requires forall i :: 0 <= i < |steps| ==> Ceased(steps[i])
    ensures var s := After(Initial(config, rows0), before);
            var s' := After(s, steps);
            var bound := Batches(|s.queue.items|, config.batchSize) + 1;
            && s'.flushes <= s.flushes + bound
            && (WorkSteps(steps) >= |s.queue.items| + 5 * bound + 6 ==> s'.phase == Exited)
            && (s'.phase == Exited ==>
                  && s'.accepted == Events(s'.flushed) + s'.queue.items
                  && (s'.accepted == Events(s'.flushed) <==> s.phase != Exited || s.queue.items == [])
                  && s'.queue.items == (if s.phase == Exited then s.queue.items else [])
                  && (s'.failureMetric == 0 ==> s'.rows == InsertAll(rows0, Events(s'.flushed))))
  {
    var s := After(Initial(config, rows0), before);
    var s' := After(s, steps);
    NothingLost(config, rows0, before);
    ConfigFixed(Initial(config, rows0), before);
    ThreadRuns(config, rows0, before);
    DrainRun(s, steps);
    FlushesLeftBound(s);
    AfterAfter(Initial(config, rows0), before, steps);
    NothingLost(config, rows0, before + steps);
    if s'.phase == Exited {
      LeftOver(s', rows0);
    }
  }

  lemma {:induction false} LeftOver(s: System, rows0: seq<ClickEvent>)
    requires Accounted(s, rows0) && s.phase == Exited
    ensures s.accepted == Events(s.flushed) + s.queue.items
    ensures s.accepted == Events(s.flushed) <==> s.queue.items == []
    ensures s.failureMetric == 0 ==> s.rows == InsertAll(rows0, Events(s.flushed))
  {
    assert Events(s.flushed) + [] == Events(s.flushed);
    assert |s.accepted| == |Events(s.flushed)| + |s.queue.items|;
    if s.failureMetric == 0 {
      AllPersisted(rows0, s.flushed);
    }
  }

  /** The steps of producers and of the thread inside Stop, once the worker thread has ended. */
  lemma {:induction false} ExitedRun(s: System, steps: seq<Step>)
    requires s.phase == Exited && forall i :: 0 <= i < |steps| ==> !steps[i].Start?
    ensures After(s, steps).phase == Exited && After(s, steps).flushed == s.flushed
  {
    if steps != [] {
      ExitedRun(s, steps[..|steps| - 1]);
    }
  }

  lemma {:induction false} StaysAfterExit(last: System, s: System, steps: seq<Step>, rows0: seq<ClickEvent>)
    requires Accounted(last, rows0) && last.phase == Exited && last.queue.items == []
    requires s == After(last, steps) && Accounted(s, rows0) && forall i :: 0 <= i < |steps| ==> !steps[i].Start?
    ensures Events(last.flushed) == last.accepted && s.flushed == last.flushed
    ensures s.phase == Exited && s.accepted == last.accepted + s.queue.items
  {
    ExitedRun(last, steps);
    LeftOver(last, rows0);
    LeftOver(s, rows0);
  }

  lemma EndsEmpty(s: System, outcome: Attempt)
    requires s.phase.NoThread? || s.phase.Exited? || s.life != Stopped
    requires s.phase != Exited && WorkStep(s, outcome).phase == Exited
    ensures WorkStep(s, outcome).queue.items == []
  {
  }

  /**
   Exactly the events accepted after the worker's last step wait for the next Start: at that step all
   accepted events have been flushed, and those accepted later stay in the queue.
   */
  lemma {:induction false} LateEventsStay(config: Config, rows0: seq<ClickEvent>, before: seq<Step>, outcome: Attempt, last: System, steps: seq<Step>)
    requires After(Initial(config, rows0), before).phase != Exited
    requires last == Next(After(Initial(config, rows0), before), Work(outcome)) && last.phase == Exited
    requires forall i :: 0 <= i < |steps| ==> !steps[i].Start?
    ensures Events(last.flushed) == last.accepted
    ensures var s := After(last, steps);
            s.phase == Exited && s.flushed == last.flushed && s.accepted == last.accepted + s.queue.items
  {
    LastIsReachable(config, rows0, before, outcome, last);
    AfterAfter(Initial(config, rows0), before + [Work(outcome)], steps);
    NothingLost(config, rows0, before + [Work(outcome)] + steps);
    StaysAfterExit(last, After(last, steps), steps, rows0);
  }

  lemma {:induction false} LastIsReachable(config: Config, rows0: seq<ClickEvent>, before: seq<Step>, outcome: Attempt, last: System)
    requires After(Initial(config, rows0), before).phase != Exited
    requires last == Next(After(Initial(config, rows0), before), Work(outcome)) && last.phase == Exited
    ensures last == After(Initial(config, rows0), before + [Work(outcome)])
    ensures Accounted(last, rows0) && last.queue.items == []
  {
    AfterLast(Initial(config, rows0), before, Work(outcome));
    ThreadRuns(config, rows0, before);
    EndsEmpty(After(Initial(config, rows0), before), outcome);
    NothingLost(config, rows0, before + [Work(outcome)]);
  }

  /** With nothing queued, four steps take the stopping worker to its end. */
  lemma {:induction false} EmptyQueueEnds(s: System, work: Step)
    requires s.phase == LoopTest && s.life == Stopping && s.queue.items == [] && work == Work(NO_ROWS)
    ensures After(s, [work, work, work, work]) == s.(phase := Exited, flushes := s.flushes + 1)
  {
    assert [work, work, work, work][..3] == [work, work, work] && [work, work, work][..2] == [work, work];
    assert [work, work][..1] == [work] && [work][..0] == [];
    assert After(s, [work]) == s.(phase := Collecting([]));
    assert After(s, [work, work]) == s.(phase := CheckState, flushes := s.flushes + 1);
    assert After(s, [work, work, work]) == s.(phase := CheckDepth, flushes := s.flushes + 1);
  }

  lemma {:induction false} StartThenStop(s: System)
    requires s.config.enabled && s.life == Stopped && s.stopper == Away
    ensures After(s, [Start, RequestStop]) == s.(life := Stopping, stopper := ToNotify, phase := LoopTest)
  {
    assert [Start, RequestStop][..1] == [Start] && [Start][..0] == [];
    assert After(s, [Start]) == s.(life := Running, phase := LoopTest);
  }

  lemma {:induction false} LateOffer(s: System, e: ClickEvent)
    requires s.phase == Exited && s.stopper == ToNotify && |s.queue.items| < s.queue.capacity
    ensures var s' := After(s, [Offer(e, true), Notify, Join]);
            && s'.life == Stopped && s'.accepted == s.accepted + [e] && s'.queue.items == s.queue.items + [e]
            && s'.queue.enqueuedTotal == s.queue.enqueuedTotal + 1 && s'.flushed == s.flushed
  {
    var offer := Offer(e, true);
    assert [offer, Notify, Join][..2] == [offer, Notify] && [offer, Notify][..1] == [offer] && [offer][..0] == [];
    assert After(s, [offer]) == OfferStep(s, e, true);
  }

  /** The queue still accepts events after the thread has ended; such an event is counted and not flushed before the next Start. */
  lemma AcceptedAfterExit(config: Config, e: ClickEvent)
    requires Validated(config) && config.enabled
    ensures var steps := [Start, RequestStop] + [Work(NO_ROWS), Work(NO_ROWS), Work(NO_ROWS), Work(NO_ROWS)] + [Offer(e, true), Notify, Join];
            var s := After(Initial(config, []), steps);
            s.life == Stopped && s.accepted == s.queue.items == [e] && s.queue.enqueuedTotal == 1 && s.flushed == []
  {
    var s := Initial(config, []);
    var starts, works, ends := [Start, RequestStop], [Work(NO_ROWS), Work(NO_ROWS), Work(NO_ROWS), Work(NO_ROWS)], [Offer(e, true), Notify, Join];
    AfterAfter(s, starts, works);
    AfterAfter(s, starts + works, ends);
    StartThenStop(s);
    EmptyQueueEnds(After(s, starts), Work(NO_ROWS));
    LateOffer(After(s, starts + works), e);
  }

  lemma {:induction false} AfterAfter(s: System, a: seq<Step>, b: seq<Step>)
    ensures After(s, a + b) == After(After(s, a), b)
  {
    if b == [] {
      assert a + b == a;
    } else {
      AfterAfter(s, a, b[..|b| - 1]);
      assert (a + b)[..|a + b| - 1] == a + b[..|b| - 1];
    }
  }

  lemma {:induction false} ConfigFixed(s: System, steps: seq<Step>)
    ensures After(s, steps).config == s.config
  {
    if steps != [] {
      ConfigFixed(s, steps[..|steps| - 1]);
    }
  }

  /** Before the first Start there is no thread and nothing to stop; a thread only ends while stopping. */
  lemma {:induction false} ThreadRuns(config: Config, rows0: seq<ClickEvent>, steps: seq<Step>)
    ensures var s := After(Initial(config, rows0), steps);
            && (s.phase.NoThread? ==> s.life == Stopped)
            && (s.phase.CheckDepth? ==> s.life == Stopping)
            && (s.phase.Exited? ==> s.life != Running)
            && (s.phase.NoThread? || s.phase.Exited? || s.life != Stopped)
  {
    if steps != [] {
      ThreadRuns(config, rows0, steps[..|steps| - 1]);
    }
  }

  // ----- catching up, and restarting -----

  predicate HasThread(s: System) {
    !s.phase.NoThread? && !s.phase.Exited? && s.life != Stopped
  }

  /** Nothing accepted is waiting for a flush. */
  predicate CaughtUp(s: System) {
    s.queue.items == [] && InHand(s.phase) == []
  }

  /** A bound on the worker steps until nothing is waiting, when nothing more is offered. */
  function StepsBehind(s: System): nat {
    8 * |s.queue.items| + match s.phase
                          case Collecting(batch) => if batch == [] then 1 else 6
                          case LoopTest => 2
                          case CheckDepth => 3
                          case CheckState => 4
                          case Persisting(_) => 5
                          case _ => 0
  }

  lemma WorkCatchesUp(s: System, outcome: Attempt)
    requires 0 < s.config.batchSize && (CaughtUp(s) || HasThread(s))
    ensures var s' := Next(s, Work(outcome));
            CaughtUp(s') || (!CaughtUp(s) && HasThread(s') && StepsBehind(s') < StepsBehind(s))
  {
  }

  lemma OthersCatchUp(s: System, step: Step)
    requires !step.Work? && !step.Offer? && (CaughtUp(s) || HasThread(s))
    ensures var s' := Next(s, step);
            CaughtUp(s') || (!CaughtUp(s) && HasThread(s') && StepsBehind(s') == StepsBehind(s))
  {
  }

  lemma {:induction false} CatchUpRun(s: System, steps: seq<Step>)
    requires 0 < s.config.batchSize && HasThread(s) && forall i :: 0 <= i < |steps| ==> !steps[i].Offer?
    ensures var s' := After(s, steps);
            CaughtUp(s') || (HasThread(s') && WorkSteps(steps) + StepsBehind(s') <= StepsBehind(s))
  {
    if steps != [] {
      var n := |steps| - 1;
      CatchUpRun(s, steps[..n]);
      ConfigFixed(s, steps[..n]);
      var mid := After(s, steps[..n]);
      if steps[n].Work? {
        WorkCatchesUp(mid, steps[n].outcome);
      } else {
        OthersCatchUp(mid, steps[n]);
      }
    }
  }

  /**
   Wherever a worker thread is running, with `d` events queued: once nothing more is offered and the
   worker has taken 8 * d + 6 steps, every event ever accepted went through a flush, whatever else
   was scheduled in between, stops and starts included.
   */
  lemma {:induction false} WorkerCatchesUp(config: Config, rows0: seq<ClickEvent>, before: seq<Step>, s: System, steps: seq<Step>)
    requires Validated(config) && s == After(Initial(config, rows0), before) && HasThread(s)
    requires forall i :: 0 <= i < |steps| ==> !steps[i].Offer?
    ensures WorkSteps(steps) >= 8 * |s.queue.items| + 6 ==> After(s, steps).accepted == Events(After(s, steps).flushed)
  {
    ConfigFixed(Initial(config, rows0), before);
    CatchUpRun(s, steps);
    AfterAfter(Initial(config, rows0), before, steps);
    NothingLost(config, rows0, before + steps);
    if CaughtUp(After(s, steps)) {
      CaughtUpAccepted(After(s, steps), rows0);
    }
  }

  lemma CaughtUpAccepted(s: System, rows0: seq<ClickEvent>)
    requires Accounted(s, rows0) && CaughtUp(s)
    ensures s.accepted == Events(s.flushed)
  {
    assert Events(s.flushed) + [] + [] == Events(s.flushed);
  }

  /** The next Start takes up what was left in the queue of a stopped worker. */
  lemma {:induction false} RestartTakesUp(config: Config, rows0: seq<ClickEvent>, before: seq<Step>, s: System, steps: seq<Step>)
    requires Validated(config) && config.enabled
    requires s == After(Initial(config, rows0), before) && s.life == Stopped && s.stopper == Away
    requires forall i :: 0 <= i < |steps| ==> !steps[i].Offer?
    requires WorkSteps(steps) >= 8 * |s.queue.items| + 6
    ensures var s' := After(Next(s, Start), steps);
            s'.accepted == s.accepted == Events(s'.flushed)
  {
    ConfigFixed(Initial(config, rows0), before);
    AfterLast(Initial(config, rows0), before, Start);
    WorkerCatchesUp(config, rows0, before + [Start], Next(s, Start), steps);
    NoOffersNoMore(Next(s, Start), steps);
  }

  lemma {:induction false} NoOffersNoMore(s: System, steps: seq<Step>)
    requires forall i :: 0 <= i < |steps| ==> !steps[i].Offer?
    ensures After(s, steps).accepted == s.accepted
  {
    if steps != [] {
      NoOffersNoMore(s, steps[..|steps| - 1]);
    }
  }
}
