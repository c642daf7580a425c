/**
  The handoff of callbacks and alarms from other threads and interrupts to the ZBOSS thread
  (zb_nrf_platform.c): a message queue, a work item and the "scheduled" flag. The machine takes
  one atomic kernel or stack call at a time, in any interleaving of any number of producers, the
  work queue thread, the ZBOSS thread and a thread that takes the ZBOSS thread down.
 */
module AppCallbacks {

  /** One element of the message queue. */
  datatype Request = Request(kind: int, func: int, param: int, maxSize: int, alarmTimestamp: int)

  datatype DispatchResult = RET_OK | RET_OVERFLOW | OTHER

  /** Where zb_app_cb_process_schedule is. */
  datatype WorkerPc = Waiting | Started | SawRequest | Scheduling

  /** Where zb_app_cb_process is; Away when it is not running. */
  datatype MainPc = Away | Entered | AtPeek | Holding(req: Request) | Dispatched(req: Request) | Overflowed

  /** What zigbee_deinit did last; Up when it is not running. */
  datatype DeinitPc = Up | Aborted | Cancelled | Purged

  datatype State = State(
    capacity: nat,
    queue: seq<Request>,        // zb_app_cb_msgq
    flag: bool,                 // zb_app_cb_process_scheduled
    workQueued: bool,           // zb_app_cb_work is submitted
    submits: nat,               // producers between k_msgq_put and k_work_submit
    scheduled: nat,             // zb_app_cb_process callbacks waiting in the ZBOSS scheduler
    worker: WorkerPc,
    main: MainPc,
    deinit: DeinitPc,
    // Since the ZBOSS thread was last taken down, oldest first:
    accepted: seq<Request>,     // requests whose producer was told RET_OK
    done: seq<Request>          // requests whose dispatch did not overflow
  )

  datatype Step =
    | Put(req: Request)
    | Submit
    | WorkerStart
    | WorkerPeek
    | WorkerTakeFlag
    | WorkerSchedule(ok: bool)
    | MainStart
    | MainClearFlag
    | MainPeek
    | MainDispatch(result: DispatchResult)
    | MainGet
    | MainResubmit
    | DeinitAbort
    | DeinitCancel
    | DeinitPurge
    | DeinitClear

  function Init(capacity: nat): State {
    State(capacity, [], false, false, 0, 0, Waiting, Away, Up, [], [])
  }

  predicate Enabled(s: State, step: Step) {
    match step
    case Put(_) => true
    case Submit => s.submits > 0
    case WorkerStart => s.workQueued && s.worker == Waiting
    case WorkerPeek => s.worker == Started
    case WorkerTakeFlag => s.worker == SawRequest
    case WorkerSchedule(_) => s.worker == Scheduling
    case MainStart => s.scheduled > 0 && s.main == Away && s.deinit == Up
    case MainClearFlag => s.main == Entered
    case MainPeek => s.main == AtPeek
    case MainDispatch(_) => s.main.Holding?
    case MainGet => s.main.Dispatched?
    case MainResubmit => s.main == Overflowed
    case DeinitAbort => s.deinit == Up
    case DeinitCancel => s.deinit == Aborted
    case DeinitPurge => s.deinit == Cancelled
    case DeinitClear => s.deinit == Purged
  }

  function Next(s: State, step: Step): State
    requires Enabled(s, step)
  {
    match step
    case Put(req) =>
      // A full queue answers RET_OVERFLOW and nothing else happens.
      if |s.queue| < s.capacity then
        s.(queue := s.queue + [req], accepted := s.accepted + [req], submits := s.submits + 1)
      else s
    case Submit => s.(submits := s.submits - 1, workQueued := true)
    case WorkerStart => s.(workQueued := false, worker := Started)
    case WorkerPeek => s.(worker := if s.queue == [] then Waiting else SawRequest)
    case WorkerTakeFlag => s.(flag := true, worker := if s.flag then Waiting else Scheduling)
    case WorkerSchedule(ok) => if ok then s.(scheduled := s.scheduled + 1, worker := Waiting) else s
    case MainStart => s.(scheduled := s.scheduled - 1, main := Entered)
    case MainClearFlag => s.(flag := false, main := AtPeek)
    case MainPeek => s.(main := if s.queue == [] then Away else Holding(s.queue[0]))
    case MainDispatch(result) =>
      if result == RET_OVERFLOW then s.(main := Overflowed)
      else s.(main := Dispatched(s.main.req), done := s.done + [s.main.req])
    case MainGet => s.(queue := if s.queue == [] then [] else s.queue[1..], main := AtPeek)
    case MainResubmit => s.(workQueued := true, main := Away)
    case DeinitAbort => s.(main := Away, accepted := s.queue, done := [], deinit := Aborted)
    case DeinitCancel => s.(workQueued := false, deinit := Cancelled)
    case DeinitPurge => s.(queue := [], accepted := [], done := [], deinit := Purged)
    case DeinitClear => s.(flag := false, deinit := Up)
  }

  // ---------- Invariants ----------

  /** Processing callbacks scheduled, being scheduled, or entered with the flag not yet cleared. */
  function Tokens(s: State): nat {
    s.scheduled + (if s.worker == Scheduling then 1 else 0) + (if s.main == Entered then 1 else 0)
  }

  /** Something is under way that will look at the queue. */
  predicate Awake(s: State) {
    || s.submits > 0
    || s.workQueued
    || s.worker != Waiting
    || s.main != Away
    || s.scheduled > 0
  }

  /** The requests that were dispatched are a prefix of the accepted ones, and the queue is the rest. */
  predicate HandsOverInOrder(s: State) {
    if s.main.Dispatched? then
      s.queue != [] && s.done != [] && s.done[|s.done| - 1] == s.queue[0] == s.main.req
      && s.accepted == s.done + s.queue[1..]
    else
      s.accepted == s.done + s.queue && (s.main.Holding? ==> s.queue != [] && s.queue[0] == s.main.req)
  }

  ghost predicate Inv(s: State) {
    && |s.queue| <= s.capacity
    && (s.deinit == Up ==> s.flag ==> Tokens(s) >= 1)
    && (s.deinit == Up ==> s.queue != [] ==> Awake(s))
    && (s.deinit != Up ==> s.main == Away)
    && HandsOverInOrder(s)
  }

  /** The flag counts the processing callbacks: there is one when it is set and none otherwise. */
  ghost predicate AtMostOne(s: State) {
    Tokens(s) == if s.flag then 1 else 0
  }

  /** Every step keeps it, but for the end of zigbee_deinit over a queue that nothing will look at. */
  lemma StepKeepsInv(s: State, step: Step)
    requires Inv(s) && Enabled(s, step)
    ensures Inv(Next(s, step)) <==> (step == DeinitClear && s.queue != [] ==> Awake(s))
  {
    StepKeepsOrder(s, step);
    hide HandsOverInOrder;
  }

  /** Whatever happens, the requests are handed over in order. */
  lemma StepKeepsOrder(s: State, step: Step)
    requires HandsOverInOrder(s) && Enabled(s, step) && (s.deinit != Up ==> s.main == Away)
    ensures HandsOverInOrder(Next(s, step))
  {
    var t := Next(s, step);
    match step
    case Put(req) => PutKeepsOrder(s, req);
    case DeinitAbort => assert [] + s.queue == s.queue;
    case MainDispatch(result) =>
      assert s.queue == [s.queue[0]] + s.queue[1..];
      Joined(s.done, [s.queue[0]], s.queue[1..]);
    case _ =>
  }

  lemma PutKeepsOrder(s: State, req: Request)
    requires HandsOverInOrder(s)
    ensures HandsOverInOrder(Next(s, Put(req)))
  {
    if |s.queue| < s.capacity {
      if s.main.Dispatched? {
        assert (s.queue + [req])[1..] == s.queue[1..] + [req];
        Joined(s.done, s.queue[1..], [req]);
      } else {
        Joined(s.done, s.queue, [req]);
      }
    }
  }

  lemma Joined<T>(a: seq<T>, b: seq<T>, c: seq<T>)
    ensures a + (b + c) == a + b + c
  {
  }

  /** Taking the thread down keeps the count exactly when no processing callback is on its way. */
  lemma StepKeepsAtMostOne(s: State, step: Step)
    requires AtMostOne(s) && Enabled(s, step)
    ensures AtMostOne(Next(s, step)) <==>
              (step == DeinitAbort ==> s.main != Entered) && (step == DeinitClear ==> Tokens(s) == 0)
  {
  }

  // ---------- Runs ----------

  predicate IsRun(s: State, steps: seq<Step>)
    decreases |steps|
  {
    steps == [] || (Enabled(s, steps[0]) && IsRun(Next(s, steps[0]), steps[1..]))
  }

  function After(s: State, steps: seq<Step>): State
    requires IsRun(s, steps)
    decreases |steps|
  {
    if steps == [] then s else After(Next(s, steps[0]), steps[1..])
  }

  lemma {:induction false} RunAppend(s: State, steps: seq<Step>, step: Step)
    requires IsRun(s, steps) && Enabled(After(s, steps), step)
    ensures IsRun(s, steps + [step]) && After(s, steps + [step]) == Next(After(s, steps), step)
    decreases |steps|
  {
    if steps == [] {
      assert [step][1..] == [];
    } else {
      assert (steps + [step])[1..] == steps[1..] + [step];
      RunAppend(Next(s, steps[0]), steps[1..], step);
    }
  }

  ghost predicate InvThroughout(s: State, steps: seq<Step>)
    requires IsRun(s, steps)
    decreases |steps|
  {
    Inv(s) && (steps != [] ==> InvThroughout(Next(s, steps[0]), steps[1..]))
  }

  /** Whenever zigbee_deinit clears the flag, what is in the queue has something to wake it. */
  predicate DeinitWakes(s: State, steps: seq<Step>)
    requires IsRun(s, steps)
    decreases |steps|
  {
    steps != [] ==>
      && (steps[0] == DeinitClear && s.queue != [] ==> Awake(s))
      && DeinitWakes(Next(s, steps[0]), steps[1..])
  }

  /** The end of zigbee_deinit is the only step that can break the invariant. */
  lemma {:induction false} OnlyDeinitCanLose(s: State, steps: seq<Step>)
    requires Inv(s) && IsRun(s, steps)
    ensures InvThroughout(s, steps) <==> DeinitWakes(s, steps)
    ensures InvThroughout(s, steps) ==> Inv(After(s, steps))
    decreases |steps|
  {
    if steps != [] {
      hide Inv;
      StepKeepsInv(s, steps[0]);
      if Inv(Next(s, steps[0])) {
        OnlyDeinitCanLose(Next(s, steps[0]), steps[1..]);
      }
    }
  }

  // ---------- When the ZBOSS thread may be taken down ----------

  /**
    What a caller of zigbee_deinit can look at before the call. In reachable states it is false
    only while the thread has entered the callback and not yet cleared the flag.
   */
  predicate MayAbort(s: State) {
    s.flag ==> s.scheduled > 0 || s.worker == Scheduling
  }

  predicate CleanAborts(s: State, steps: seq<Step>)
    requires IsRun(s, steps)
    decreases |steps|
  {
    steps != [] ==>
      && (steps[0] == DeinitAbort ==> MayAbort(s))
      && CleanAborts(Next(s, steps[0]), steps[1..])
  }

  /** What a clean abort establishes and the other threads keep until zigbee_deinit is over. */
  predicate Orderly(s: State) {
    s.deinit != Up ==>
      && s.main == Away
      && MayAbort(s)
      && (s.deinit == Purged && s.queue != [] ==> Awake(s))
  }

  lemma OrderlyStep(s: State, step: Step)
    requires Orderly(s) && Enabled(s, step) && (step == DeinitAbort ==> MayAbort(s))
    ensures Orderly(Next(s, step))
  {
  }

  lemma {:induction false} CleanAbortsWake(s: State, steps: seq<Step>)
    requires Orderly(s) && IsRun(s, steps) && CleanAborts(s, steps)
    ensures DeinitWakes(s, steps)
    decreases |steps|
  {
    if steps != [] {
      OrderlyStep(s, steps[0]);
      hide Next, Enabled;
      CleanAbortsWake(Next(s, steps[0]), steps[1..]);
    }
  }

  /**
    In every interleaving of every thread, in which zigbee_deinit is called any number of times
    but never in the middle of that window, a non-empty queue means at all times that the work item
    is submitted, about to be submitted or running, that the processor is running, or that a
    processing callback is scheduled; and the dispatched requests are a prefix, in order, of the
    accepted ones.
   */
  lemma NoLostWakeup(s: State, steps: seq<Step>)
    requires Inv(s) && Orderly(s) && IsRun(s, steps) && CleanAborts(s, steps)
    ensures InvThroughout(s, steps) && Inv(After(s, steps))
  {
    CleanAbortsWake(s, steps);
    OnlyDeinitCanLose(s, steps);
  }

  lemma {:induction false} NoAbortIsClean(s: State, steps: seq<Step>)
    requires IsRun(s, steps) && DeinitAbort !in steps
    ensures CleanAborts(s, steps)
    decreases |steps|
  {
    if steps != [] {
      NoAbortIsClean(Next(s, steps[0]), steps[1..]);
    }
  }

  lemma Before(s: State, step: Step, rest: seq<Step>) returns (steps: seq<Step>)
    requires Enabled(s, step) && step != DeinitAbort
    requires IsRun(Next(s, step), rest) && DeinitAbort !in rest && !InvThroughout(Next(s, step), rest)
    ensures IsRun(s, steps) && DeinitAbort !in steps && !InvThroughout(s, steps)
  {
    steps := [step] + rest;
    assert steps[1..] == rest;
  }

  /** The flag is set and nobody is on his way to clear it: the work item goes away in vain. */
  lemma {:induction false} Strand(s: State) returns (steps: seq<Step>)
    requires s.deinit == Purged && s.main == Away && s.queue != []
    requires s.flag && s.scheduled == 0 && s.worker != Scheduling
    ensures IsRun(s, steps) && DeinitAbort !in steps && !InvThroughout(s, steps)
    decreases s.submits, s.workQueued, if s.worker == Started then 2 else if s.worker == SawRequest then 1 else 0
  {
    if s.submits == 0 && s.worker == Waiting && !s.workQueued {
      assert !Inv(Next(s, DeinitClear));
      steps := Before(s, DeinitClear, []);
    } else {
      var step := if s.submits > 0 then Submit
                  else if s.worker == Started then WorkerPeek
                  else if s.worker == SawRequest then WorkerTakeFlag
                  else WorkerStart;
      var rest := Strand(Next(s, step));
      steps := Before(s, step, rest);
    }
  }

  lemma StrandAfterAbort(s: State) returns (steps: seq<Step>)
    requires Inv(s) && s.deinit == Up && s.capacity > 0 && !MayAbort(s)
    ensures IsRun(Next(s, DeinitAbort), steps) && DeinitAbort !in steps
    ensures !InvThroughout(Next(s, DeinitAbort), steps)
  {
    var aborted := Next(s, DeinitAbort);
    var cancelled := Next(aborted, DeinitCancel);
    var purged := Next(cancelled, DeinitPurge);
    var req := Request(0, 0, 0, 0, 0);
    steps := Strand(Next(purged, Put(req)));
    steps := Before(purged, Put(req), steps);
    steps := Before(cancelled, DeinitPurge, steps);
    steps := Before(aborted, DeinitCancel, steps);
  }

  /**
    A call of zigbee_deinit can lose a request, with the other threads running as they like,
    exactly when the flag is set and neither a scheduled callback nor the work item accounts for it.
   */
  lemma AbortIsSafeIff(s: State)
    requires Inv(s) && s.deinit == Up && s.capacity > 0
    ensures (forall steps :: IsRun(Next(s, DeinitAbort), steps) && DeinitAbort !in steps ==>
               InvThroughout(Next(s, DeinitAbort), steps)) <==> MayAbort(s)
    ensures !MayAbort(s) ==> s.main == Entered
  {
    var t := Next(s, DeinitAbort);
    StepKeepsInv(s, DeinitAbort);
    if MayAbort(s) {
      forall steps | IsRun(t, steps) && DeinitAbort !in steps ensures InvThroughout(t, steps) {
        NoAbortIsClean(t, steps);
        NoLostWakeup(t, steps);
      }
    } else {
      var steps := StrandAfterAbort(s);
    }
  }

  /** No producer gets in between the purge of the queue and the end of zigbee_deinit. */
  predicate QuietAfterPurge(s: State, steps: seq<Step>)
    requires IsRun(s, steps)
    decreases |steps|
  {
    steps != [] ==>
      && !(s.deinit == Purged && steps[0].Put?)
      && QuietAfterPurge(Next(s, steps[0]), steps[1..])
  }

  /** Nor is a request lost in the runs without such a producer, whenever the thread is aborted. */
  lemma {:induction false} QuietDeinitWakes(s: State, steps: seq<Step>)
    requires s.deinit == Purged ==> s.queue == []
    requires s.deinit != Up ==> s.main == Away
    requires IsRun(s, steps) && QuietAfterPurge(s, steps)
    ensures DeinitWakes(s, steps)
    decreases |steps|
  {
    if steps != [] {
      QuietDeinitWakes(Next(s, steps[0]), steps[1..]);
    }
  }

  /**
    A run in which a request is lost. The callback had just been entered when its thread was
    aborted, so the flag is still set; the producer's work item finds it set and goes away, and
    zigbee_deinit then clears it. The request waits until somebody puts another one.
   */
  lemma StrandedRequest(capacity: nat, first: Request, second: Request) returns (steps: seq<Step>)
    requires capacity > 0
    ensures IsRun(Init(capacity), steps)
    ensures After(Init(capacity), steps).queue == After(Init(capacity), steps).accepted == [second]
    ensures After(Init(capacity), steps).deinit == Up && !Awake(After(Init(capacity), steps))
  {
    steps := JustEntered(capacity, first);
    steps := Extend(capacity, steps, DeinitAbort);
    steps := Extend(capacity, steps, DeinitCancel);
    steps := Extend(capacity, steps, DeinitPurge);
    steps := Extend(capacity, steps, Put(second));
    steps := Extend(capacity, steps, Submit);
    steps := Extend(capacity, steps, WorkerStart);
    steps := Extend(capacity, steps, WorkerPeek);
    steps := Extend(capacity, steps, WorkerTakeFlag);
    steps := Extend(capacity, steps, DeinitClear);
  }

  lemma JustEntered(capacity: nat, req: Request) returns (steps: seq<Step>)
    requires capacity > 0
    ensures IsRun(Init(capacity), steps)
    ensures After(Init(capacity), steps) == State(capacity, [req], true, false, 0, 0, Waiting, Entered, Up, [req], [])
  {
    steps := [];
    steps := Extend(capacity, steps, Put(req));
    steps := Extend(capacity, steps, Submit);
    steps := Extend(capacity, steps, WorkerStart);
    steps := Extend(capacity, steps, WorkerPeek);
    steps := Extend(capacity, steps, WorkerTakeFlag);
    steps := Extend(capacity, steps, WorkerSchedule(true));
    steps := Extend(capacity, steps, MainStart);
  }

  lemma Extend(capacity: nat, run: seq<Step>, step: Step) returns (steps: seq<Step>)
    requires IsRun(Init(capacity), run) && Enabled(After(Init(capacity), run), step)
    ensures steps == run + [step] && IsRun(Init(capacity), steps)
    ensures After(Init(capacity), steps) == Next(After(Init(capacity), run), step)
  {
    steps := run + [step];
    RunAppend(Init(capacity), run, step);
  }

  /** Unless the thread is taken down there is never more than one processing callback. */
  lemma {:induction false} NeverTwoCallbacks(s: State, steps: seq<Step>)
    requires AtMostOne(s) && s.deinit == Up && IsRun(s, steps) && DeinitAbort !in steps
    ensures AtMostOne(After(s, steps)) && After(s, steps).scheduled <= 1
    ensures After(s, steps).scheduled == 1 ==> After(s, steps).flag
    decreases |steps|
  {
    if steps != [] {
      StepKeepsAtMostOne(s, steps[0]);
      NeverTwoCallbacks(Next(s, steps[0]), steps[1..]);
    }
  }

  lemma InitHolds(capacity: nat)
    ensures Inv(Init(capacity)) && AtMostOne(Init(capacity))
  {
  }

  /**
    In the runs in which no request is lost: a request waits only while something is under way that will look at it, and
    each accepted request is dispatched once and in order, or is in the queue still.
   */
  lemma HandedOverInOrder(capacity: nat, steps: seq<Step>) returns (t: State)
    requires IsRun(Init(capacity), steps) && DeinitWakes(Init(capacity), steps)
    ensures t == After(Init(capacity), steps)
    ensures t.deinit == Up && t.queue != [] ==> Awake(t)
    ensures t.main.Dispatched? ==> t.queue != [] && t.accepted == t.done + t.queue[1..]
    ensures !t.main.Dispatched? ==> t.accepted == t.done + t.queue
    ensures |t.queue| <= capacity
  {
    InitHolds(capacity);
    OnlyDeinitCanLose(Init(capacity), steps);
    CapacityIsFixed(Init(capacity), steps);
    t := After(Init(capacity), steps);
  }

  lemma {:induction false} CapacityIsFixed(s: State, steps: seq<Step>)
    requires IsRun(s, steps)
    ensures After(s, steps).capacity == s.capacity
    decreases |steps|
  {
    if steps != [] {
      CapacityIsFixed(Next(s, steps[0]), steps[1..]);
    }
  }

  // ---------- Every accepted request is delivered ----------

  /** What the threads do of their own accord: no new request, no shutdown, and the stack has room. */
  predicate Progress(step: Step) {
    match step
    case Submit => true
    case WorkerStart => true
    case WorkerPeek => true
    case WorkerTakeFlag => true
    case WorkerSchedule(ok) => ok
    case MainStart => true
    case MainClearFlag => true
    case MainPeek => true
    case MainDispatch(result) => result != RET_OVERFLOW
    case MainGet => true
    case MainResubmit => true
    case _ => false
  }

  /** How many such steps there can be; a producer that has not submitted its work item costs most. */
  function Effort(s: State): nat {
    10 * s.submits + (if s.workQueued then 9 else 0) + 5 * s.scheduled + 3 * |s.queue|
    + (match s.worker
       case Started => 8
       case SawRequest => 7
       case Scheduling => 6
       case Waiting => 0)
    + (match s.main
       case Overflowed => 10
       case Entered => 4
       case AtPeek => 3
       case Holding(_) => 2
       case Dispatched(_) => 1
       case Away => 0)
  }

  lemma ProgressCostsEffort(s: State, step: Step)
    requires Enabled(s, step) && Progress(step) && (s.main.Dispatched? ==> s.queue != [])
    ensures Effort(Next(s, step)) < Effort(s)
    ensures Next(s, step).accepted == s.accepted && Next(s, step).deinit == s.deinit
  {
  }

  /** While a request waits, some thread can go on. */
  lemma SomeoneCanGoOn(s: State) returns (step: Step)
    requires Awake(s) && s.deinit == Up
    ensures Enabled(s, step) && Progress(step)
  {
    step := if s.submits > 0 then Submit
            else match s.main
              case Entered => MainClearFlag
              case AtPeek => MainPeek
              case Holding(_) => MainDispatch(RET_OK)
              case Dispatched(_) => MainGet
              case Overflowed => MainResubmit
              case Away =>
                if s.scheduled > 0 then MainStart
                else match s.worker
                  case Started => WorkerPeek
                  case SawRequest => WorkerTakeFlag
                  case Scheduling => WorkerSchedule(true)
                  case Waiting => WorkerStart;
  }

  lemma NothingLeft(s: State)
    requires Inv(s) && s.queue == [] && s.main == Away
    ensures s.accepted == s.done
  {
  }

  ghost predicate AtRest(s: State) {
    forall step :: Progress(step) ==> !Enabled(s, step)
  }

  /**
    Whatever order the threads run in, they come to rest after a bounded number of steps, and then
    every accepted request has been delivered exactly once and in order.
   */
  lemma {:induction false} QueueDrains(s: State, steps: seq<Step>)
    requires Inv(s) && s.deinit == Up && IsRun(s, steps)
    requires forall i :: 0 <= i < |steps| ==> Progress(steps[i])
    ensures |steps| <= Effort(s)
    ensures AtRest(After(s, steps)) ==>
              After(s, steps).queue == [] && After(s, steps).done == After(s, steps).accepted == s.accepted
    decreases |steps|
  {
    if steps == [] {
      if s.main != Away || s.queue != [] {
        var step := SomeoneCanGoOn(s);
        assert !AtRest(s);
      } else {
        NothingLeft(s);
      }
    } else {
      assert Progress(steps[0]);
      StepKeepsInv(s, steps[0]);
      assert s.main.Dispatched? ==> HandsOverInOrder(s);
      ProgressCostsEffort(s, steps[0]);
      hide Next, Enabled, Effort, Inv, HandsOverInOrder, AtRest;
      QueueDrains(Next(s, steps[0]), steps[1..]);
    }
  }

  // ---------- The two functions themselves, statement by statement ----------

  class Platform {
    const capacity: nat
    var queue: seq<Request>
    var flag: bool
    var workQueued: bool
    var scheduled: nat
    // Where the threads are, and the history.
    var submits: nat
    var worker: WorkerPc
    var main: MainPc
    var deinit: DeinitPc
    var accepted: seq<Request>
    var done: seq<Request>
    ghost var trace: seq<Step>
    /** How many requests the other threads may still put; any number. */
    var budget: nat

    function Abs(): State
      reads this
    {
      State(capacity, queue, flag, workQueued, submits, scheduled, worker, main, deinit, accepted, done)
    }

    /** The state was reached from `Init` by the steps of the trace: all that holds of runs holds of it. */
    ghost predicate Valid()
      reads this
    {
      IsRun(Init(capacity), trace) && After(Init(capacity), trace) == Abs()
    }

    constructor (capacity: nat, budget: nat)
      ensures Valid() && trace == [] && this.capacity == capacity
    {
      this.capacity, this.budget := capacity, budget;
      queue, flag, workQueued, scheduled := [], false, false, 0;
      submits, worker, main, deinit, accepted, done, trace := 0, Waiting, Away, Up, [], [], [];
    }

    /** The fields were just written as `step` says: the run goes on. */
    ghost method Record(before: State, step: Step)
      requires IsRun(Init(capacity), trace) && After(Init(capacity), trace) == before
      requires Enabled(before, step) && Abs() == Next(before, step)
      modifies this`trace
      ensures Valid() && trace == old(trace) + [step]
    {
      RunAppend(Init(capacity), trace, step);
      trace := trace + [step];
    }

    /** A step of the machine that another thread takes. */
    method Perform(step: Step)
      requires Valid() && Enabled(Abs(), step)
      modifies this`queue, this`flag, this`workQueued, this`submits, this`scheduled, this`worker, this`main
      modifies this`deinit, this`accepted, this`done, this`trace
      ensures Valid() && Abs() == Next(old(Abs()), step) && trace == old(trace) + [step]
    {
      hide IsRun, After, Enabled;
      var before := Abs();
      var after := Next(before, step);
      CapacityStays(before, step);
      hide Next;
      queue, flag, workQueued, submits := after.queue, after.flag, after.workQueued, after.submits;
      scheduled, worker, main, deinit := after.scheduled, after.worker, after.main, after.deinit;
      accepted, done := after.accepted, after.done;
      assert Abs() == after;
      Record(before, step);
    }

    /** One step of a producer or of the work queue thread, if it is possible now. */
    method OtherStep(step: Step)
      requires Valid()
      modifies this
      ensures Valid() && main == old(main) && done == old(done) && old(trace) <= trace && old(queue) <= queue
      ensures deinit == old(deinit)
      ensures budget + |queue| <= old(budget + |queue|)
    {
      hide IsRun, After, Next, Enabled;
      if (step.Put? || step.Submit? || IsWorkers(step)) && Enabled(Abs(), step) && (step.Put? ==> budget > 0) {
        OthersLeave(Abs(), step);
        Perform(step);
        budget := if step.Put? then budget - 1 else budget;
      }
    }

    /** What the other threads and interrupts do between two statements of the ZBOSS thread. */
    method Others()
      requires Valid()
      modifies this
      ensures Valid() && main == old(main) && done == old(done) && old(trace) <= trace && old(queue) <= queue
      ensures deinit == old(deinit)
      ensures budget + |queue| <= old(budget + |queue|)
    {
      hide IsRun, After;
      var steps: seq<Step> := *;
      for i := 0 to |steps|
        invariant Valid() && main == old(main) && done == old(done) && old(trace) <= trace && old(queue) <= queue
        invariant deinit == old(deinit)
        invariant budget + |queue| <= old(budget + |queue|)
      {
        OtherStep(steps[i]);
      }
    }

    /**
      A producer: put the request, then submit the work item, with everybody else in between. On the
      ZBOSS thread itself the stack is called at once, and what it `answered` is the result.
     */
    method ZigbeeSchedule(req: Request, onZbossThread: bool, answered: DispatchResult) returns (ret: DispatchResult)
      requires Valid()
      modifies this
      ensures Valid()
      ensures ret == if onZbossThread then answered else if |old(queue)| < capacity then RET_OK else RET_OVERFLOW
      ensures onZbossThread ==> Abs() == old(Abs()) && trace == old(trace)
      ensures !onZbossThread && ret != RET_OK ==> Abs() == old(Abs()) && trace == old(trace) + [Put(req)]
      ensures !onZbossThread && ret == RET_OK ==>
                old(trace) + [Put(req)] <= trace && trace[|trace| - 1] == Submit && workQueued
    {
      hide IsRun, After, Next, Enabled;
      if onZbossThread {
        return answered;
      }
      ret := PutRequest(req);
      if ret == RET_OK {
        OthersThanProducer();
        SubmitWork();
      }
    }

    method PutRequest(req: Request) returns (ret: DispatchResult)
      requires Valid()
      modifies this`queue, this`accepted, this`submits, this`trace
      ensures Valid() && trace == old(trace) + [Put(req)]
      ensures ret == if |old(queue)| < capacity then RET_OK else RET_OVERFLOW
      ensures ret == RET_OK ==>
                queue == old(queue) + [req] && accepted == old(accepted) + [req] && submits == old(submits) + 1
      ensures ret != RET_OK ==> Abs() == old(Abs())
    {
      hide IsRun, After;
      ghost var before := Abs();
      if |queue| >= capacity {
        ret := RET_OVERFLOW;
      } else {
        ret := RET_OK;
        queue, accepted, submits := queue + [req], accepted + [req], submits + 1;
      }
      Record(before, Put(req));
    }

    method SubmitWork()
      requires Valid() && submits > 0
      modifies this`workQueued, this`submits, this`trace
      ensures Valid() && workQueued && trace == old(trace) + [Submit]
    {
      hide IsRun, After;
      ghost var before := Abs();
      submits, workQueued := submits - 1, true;
      Record(before, Submit);
    }

    /** One step of another thread, that leaves this producer its own submit. */
    method OtherThanProducer(step: Step)
      requires Valid() && submits > 0
      modifies this
      ensures Valid() && old(trace) <= trace && submits > 0
    {
      hide IsRun, After, Next, Enabled;
      if Enabled(Abs(), step) && (step == Submit ==> submits > 1) {
        SubmitsLeft(Abs(), step);
        Perform(step);
      }
    }

    method OthersThanProducer()
      requires Valid() && submits > 0
      modifies this
      ensures Valid() && old(trace) <= trace && submits > 0
    {
      hide IsRun, After;
      var steps: seq<Step> := *;
      for i := 0 to |steps|
        invariant Valid() && old(trace) <= trace && submits > 0
      {
        OtherThanProducer(steps[i]);
      }
    }

    /** One round of the loop: dispatch the peeked request, and remove it unless the stack overflowed. */
    method ProcessFirst() returns (ret: DispatchResult)
      requires Valid() && main == AtPeek && queue != []
      modifies this
      ensures Valid() && old(trace) <= trace
      ensures if ret == RET_OVERFLOW then main == Overflowed && done == old(done)
              else main == AtPeek && done == old(done) + [old(queue)[0]]
      ensures ret != RET_OVERFLOW ==> budget + |queue| < old(budget + |queue|)
    {
      hide IsRun, After;
      ghost var before := Abs();
      var newAppCb := queue[0];
      main := Holding(newAppCb);
      Record(before, MainPeek);
      Others();

      ret := Dispatch(newAppCb);
      if ret != RET_OVERFLOW {
        Others();
        RemoveFirst();
      }
    }

    /** The call into the stack that the request asks for; it may answer anything. */
    method Dispatch(newAppCb: Request) returns (ret: DispatchResult)
      requires Valid() && main == Holding(newAppCb)
      modifies this`main, this`done, this`trace
      ensures Valid() && old(trace) <= trace
      ensures if ret == RET_OVERFLOW then main == Overflowed && done == old(done)
              else main == Dispatched(newAppCb) && done == old(done) + [newAppCb]
    {
      hide IsRun, After;
      ghost var before := Abs();
      ret := *;
      if ret == RET_OVERFLOW {
        main := Overflowed;
      } else {
        main, done := Dispatched(newAppCb), done + [newAppCb];
      }
      Record(before, MainDispatch(ret));
    }

    method RemoveFirst()
      requires Valid() && main.Dispatched? && queue != []
      modifies this`queue, this`main, this`trace
      ensures Valid() && old(trace) <= trace
      ensures main == AtPeek && queue == old(queue)[1..]
    {
      hide IsRun, After;
      ghost var before := Abs();
      queue, main := queue[1..], AtPeek;
      Record(before, MainGet);
    }

    /** Dispatches the queued requests until the queue is empty or the stack's scheduler overflows. */
    method ZbAppCbProcess()
      requires Valid() && main == Entered
      modifies this
      ensures Valid() && main == Away && old(trace) <= trace
      ensures queue == [] || workQueued
      ensures old(done) <= done
    {
      hide IsRun, After;
      var ret := RET_OK;
      Others();
      ClearFlag();
      Others();

      while queue != []
        invariant Valid() && main == AtPeek && ret != RET_OVERFLOW
        invariant old(trace) <= trace && old(done) <= done
        decreases budget + |queue|
      {
        ret := ProcessFirst();
        Others();
        if ret == RET_OVERFLOW {
          break;
        }
      }

      Leave();
    }

    method ClearFlag()
      requires Valid() && main == Entered
      modifies this`flag, this`main, this`trace
      ensures Valid() && main == AtPeek && !flag && old(trace) <= trace
    {
      hide IsRun, After;
      ghost var before := Abs();
      flag, main := false, AtPeek;
      Record(before, MainClearFlag);
    }

    /** After an overflow the work item is submitted again. */
    method Leave()
      requires Valid() && (main == Overflowed || (main == AtPeek && queue == []))
      modifies this`workQueued, this`main, this`trace
      ensures Valid() && main == Away && old(trace) <= trace
      ensures workQueued == (old(workQueued) || old(main) == Overflowed)
    {
      hide IsRun, After;
      ghost var before := Abs();
      if main == Overflowed {
        workQueued, main := true, Away;
        Record(before, MainResubmit);
      } else {
        main := Away;
        Record(before, MainPeek);
      }
    }

    /** Takes the ZBOSS thread down, while the other threads go on. */
    method ZigbeeDeinit()
      requires Valid() && deinit == Up
      modifies this
      ensures Valid() && deinit == Up && main == Away && !flag && old(trace) <= trace
    {
      hide IsRun, After;
      AbortThread();
      Others();
      CancelWork();
      Others();
      PurgeQueue();
      Others();
      EndDeinit();
    }

    method AbortThread()
      requires Valid() && deinit == Up
      modifies this`main, this`accepted, this`done, this`deinit, this`trace
      ensures Valid() && old(trace) <= trace && deinit == Aborted && main == Away
    {
      hide IsRun, After;
      ghost var before := Abs();
      main, accepted, done, deinit := Away, queue, [], Aborted;
      Record(before, DeinitAbort);
    }

    method CancelWork()
      requires Valid() && deinit == Aborted
      modifies this`workQueued, this`deinit, this`trace
      ensures Valid() && old(trace) <= trace && deinit == Cancelled && !workQueued
    {
      hide IsRun, After;
      ghost var before := Abs();
      workQueued, deinit := false, Cancelled;
      Record(before, DeinitCancel);
    }

    method PurgeQueue()
      requires Valid() && deinit == Cancelled
      modifies this`queue, this`accepted, this`done, this`deinit, this`trace
      ensures Valid() && old(trace) <= trace && deinit == Purged && queue == []
    {
      hide IsRun, After;
      ghost var before := Abs();
      queue, accepted, done, deinit := [], [], [], Purged;
      Record(before, DeinitPurge);
    }

    method EndDeinit()
      requires Valid() && deinit == Purged
      modifies this`flag, this`deinit, this`trace
      ensures Valid() && old(trace) <= trace && deinit == Up && !flag
    {
      hide IsRun, After;
      ghost var before := Abs();
      flag, deinit := false, Up;
      Record(before, DeinitClear);
    }

    /** One step of another thread than the work queue's, zigbee_deinit included, if it is possible now. */
    method OtherThanWorker(step: Step)
      requires Valid()
      modifies this
      ensures Valid() && old(trace) <= trace && worker == old(worker)
      ensures ByWorker(trace) == ByWorker(old(trace))
    {
      hide IsRun, After, Next, Enabled;
      if !IsWorkers(step) && Enabled(Abs(), step) {
        OnlyWorkerMoves(Abs(), step);
        Perform(step);
        assert trace[..|trace| - 1] == old(trace);
      }
    }

    method OthersThanWorker()
      requires Valid()
      modifies this
      ensures Valid() && old(trace) <= trace && worker == old(worker)
      ensures ByWorker(trace) == ByWorker(old(trace))
    {
      hide IsRun, After, ByWorker;
      var steps: seq<Step> := *;
      for i := 0 to |steps|
        invariant Valid() && old(trace) <= trace && worker == old(worker)
        invariant ByWorker(trace) == ByWorker(old(trace))
      {
        OtherThanWorker(steps[i]);
      }
    }

    /**
      The work item. It looks at the queue; if there is something, takes the flag; if it was clear,
      schedules the processing callback, as often as the stack refuses it.
     */
    method ZbAppCbProcessSchedule(retries: nat) returns (saw: bool, took: bool)
      requires Valid() && worker == Started
      modifies this
      ensures Valid() && old(trace) <= trace && worker == Waiting
      ensures ByWorker(trace) == ByWorker(old(trace)) + WorkItem(saw, took, retries)
    {
      hide IsRun, After, ByWorker, Next, Enabled;
      OthersThanWorker();
      saw := PeekQueue();
      took := false;
      if !saw {
        return;
      }
      OthersThanWorker();
      took := TakeFlag();
      if !took {
        return;
      }
      for i := 0 to retries
        invariant Valid() && old(trace) <= trace && worker == Scheduling
        invariant ByWorker(trace)
               == ByWorker(old(trace)) + [WorkerPeek, WorkerTakeFlag] + seq(i, _ => WorkerSchedule(false))
      {
        OthersThanWorker();
        ScheduleProcess(false);
      }
      OthersThanWorker();
      ScheduleProcess(true);
    }

    method PeekQueue() returns (saw: bool)
      requires Valid() && worker == Started
      modifies this`worker, this`trace
      ensures Valid() && trace == old(trace) + [WorkerPeek] && ByWorker(trace) == ByWorker(old(trace)) + [WorkerPeek]
      ensures saw == (queue != []) && worker == if saw then SawRequest else Waiting
    {
      hide IsRun, After;
      ghost var before := Abs();
      saw := queue != [];
      worker := if saw then SawRequest else Waiting;
      Record(before, WorkerPeek);
      assert trace[..|trace| - 1] == old(trace);
    }

    /** atomic_set to 1; tells whether it was 0. */
    method TakeFlag() returns (took: bool)
      requires Valid() && worker == SawRequest
      modifies this`worker, this`flag, this`trace
      ensures Valid() && trace == old(trace) + [WorkerTakeFlag]
      ensures ByWorker(trace) == ByWorker(old(trace)) + [WorkerTakeFlag]
      ensures took == !old(flag) && flag && worker == if took then Scheduling else Waiting
    {
      hide IsRun, After;
      ghost var before := Abs();
      took := !flag;
      flag, worker := true, if took then Scheduling else Waiting;
      Record(before, WorkerTakeFlag);
      assert trace[..|trace| - 1] == old(trace);
    }

    method ScheduleProcess(ok: bool)
      requires Valid() && worker == Scheduling
      modifies this`worker, this`scheduled, this`trace
      ensures Valid() && trace == old(trace) + [WorkerSchedule(ok)]
      ensures ByWorker(trace) == ByWorker(old(trace)) + [WorkerSchedule(ok)]
      ensures worker == if ok then Waiting else Scheduling
      ensures scheduled == old(scheduled) + if ok then 1 else 0
    {
      hide IsRun, After;
      ghost var before := Abs();
      if ok {
        scheduled, worker := scheduled + 1, Waiting;
      }
      Record(before, WorkerSchedule(ok));
      assert trace[..|trace| - 1] == old(trace);
    }
  }

  lemma CapacityStays(s: State, step: Step)
    requires Enabled(s, step)
    ensures Next(s, step).capacity == s.capacity
  {
  }

  lemma OthersLeave(s: State, step: Step)
    requires Enabled(s, step) && (step.Put? || step.Submit? || IsWorkers(step))
    ensures Next(s, step).main == s.main && Next(s, step).done == s.done && Next(s, step).deinit == s.deinit
    ensures s.queue <= Next(s, step).queue && |Next(s, step).queue| <= |s.queue| + if step.Put? then 1 else 0
  {
  }

  lemma OnlyWorkerMoves(s: State, step: Step)
    requires Enabled(s, step) && !IsWorkers(step)
    ensures Next(s, step).worker == s.worker
  {
  }

  lemma SubmitsLeft(s: State, step: Step)
    requires Enabled(s, step) && s.submits > 0 && (step == Submit ==> s.submits > 1)
    ensures Next(s, step).submits > 0
  {
  }

  predicate IsWorkers(step: Step) {
    step.WorkerStart? || step.WorkerPeek? || step.WorkerTakeFlag? || step.WorkerSchedule?
  }

  /** The steps of the work queue thread among `steps`. */
  function ByWorker(steps: seq<Step>): seq<Step> {
    if steps == [] then []
    else ByWorker(steps[..|steps| - 1]) + if IsWorkers(steps[|steps| - 1]) then [steps[|steps| - 1]] else []
  }

  /** The steps of one run of the work item. */
  function WorkItem(saw: bool, took: bool, retries: nat): seq<Step> {
    if !saw then [WorkerPeek]
    else if !took then [WorkerPeek, WorkerTakeFlag]
    else [WorkerPeek, WorkerTakeFlag] + seq(retries, _ => WorkerSchedule(false)) + [WorkerSchedule(true)]
  }
}
