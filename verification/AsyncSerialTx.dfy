/**
  Transmission on the asynchronous UART (zb_nrf_async_serial.c): the send call, statement by
  statement, against the TX interrupt and the TX timer, which may run between any two of its
  statements. One thread sends.
 */
module AsyncSerialTx {
  import opened Basics

  datatype Status =
    | SERIAL_SEND_SUCCESS
    | SERIAL_SEND_BUSY
    | SERIAL_SEND_TIMEOUT_EXPIRED
    | SERIAL_SEND_ERROR

  // The thread's next statement of zb_osif_serial_send_data.
  datatype Pc =
    | Idle
    | SaveBuf                  // uart_tx_buf_bak = uart_tx_buf is next
    | SetBuf                   // uart_tx_buf = buf is next
    | SetLen
    | ResetOffset
    | SetCallback              // tx_trx_data_cb = tx_data_cb is next
    | EnableIrq

  // Buffers are named by numbers; HOME is the one that uart_tx_buf names between transfers.
  const HOME: nat := 0

  // Callbacks are named by numbers too; None is NULL.
  type Callback = Option<nat>

  /** The send call that last got the semaphore: its buffer, the bytes in it, and its callback. */
  datatype Call = Call(user: nat, data: seq<byte>, wants: Callback)

  /** A callback was told how a transfer ended. */
  datatype Told = Told(cb: nat, status: Status)

  /** What happened so far. */
  datatype Log = Log(
    accepted: nat,             // sends that got the semaphore and had bytes to send
    ends: seq<Status>,         // how transfers ended, oldest first
    expected: seq<Told>,       // whom each end concerned, if its send call had a callback
    callbacks: seq<Told>,      // each scheduling of tx_trx_data_cb, oldest first
    wire: seq<byte>,           // every byte put in the UART
    sent: seq<byte>,           // the bytes of the ended transfers, up to where each stopped
    raced: bool                // the interrupt found bytes before the send call had set all it needs
  )

  datatype State = State(
    sem: nat,                  // tx_done_sem
    buf: nat,                  // uart_tx_buf
    bak: nat,                  // uart_tx_buf_bak
    len: nat,                  // uart_tx_buf_len
    offset: nat,               // uart_tx_buf_offset
    timer: bool,               // uart_tx_timer is running
    trxCb: Callback,           // tx_trx_data_cb
    cb: Callback,              // tx_data_cb
    irq: bool,                 // TX interrupt enabled
    pc: Pc,
    call: Call,
    log: Log
  )

  datatype Step =
    | TxReady(n: nat)          // uart_fifo_fill takes n bytes
    | TxTimeout
    | Send(user: nat, data: seq<byte>)
    | SetCb(cb: Callback)
    | Thread

  function Init(): State {
    State(1, HOME, HOME, 0, 0, false, None, None, false, Idle, Call(HOME, [], None), Log(0, [], [], [], [], [], false))
  }

  function Telling(cb: Callback, status: Status): seq<Told> {
    if cb.Some? then [Told(cb.value, status)] else []
  }

  function LogEnd(s: State, status: Status): Log
    requires s.offset <= |s.call.data|
  {
    s.log.(ends := s.log.ends + [status],
           expected := s.log.expected + Telling(s.call.wants, status),
           callbacks := s.log.callbacks + Telling(s.trxCb, status),
           sent := s.log.sent + s.call.data[..s.offset])
  }

  /** The end of a transfer, by success or by timeout; tx_trx_data_cb is scheduled once. */
  function EndTransfer(s: State, status: Status): State
    requires s.offset <= |s.call.data|
  {
    s.(offset := 0, len := 0, buf := s.bak, timer := false, sem := 1, trxCb := None, log := LogEnd(s, status))
  }

  /** The bytes are in the UART; the end of the transfer or the restart of the timer is next. */
  function Filled(s: State, n: nat): State
    requires s.offset < s.len <= |s.call.data| && n <= s.len - s.offset
  {
    s.(offset := s.offset + n,
       log := s.log.(wire := s.log.wire + s.call.data[s.offset..s.offset + n],
                     raced := s.log.raced || s.pc == ResetOffset || s.pc == SetCallback))
  }

  /** The bytes are those of the send call: the transfer works on its buffer. */
  function HandleTxReady(s: State, n: nat): State
    requires s.offset < s.len ==> s.len <= |s.call.data| && n <= s.len - s.offset
  {
    if s.len <= s.offset then s.(irq := false)
    else
      var t := Filled(s, n);
      if t.offset == t.len then EndTransfer(t, SERIAL_SEND_SUCCESS) else t.(timer := true)
  }

  function ThreadStep(s: State): State
    requires s.pc != Idle
  {
    match s.pc
    case SaveBuf => s.(bak := s.buf, pc := SetBuf)
    case SetBuf => s.(buf := s.call.user, pc := SetLen)
    case SetLen => s.(len := |s.call.data|, pc := ResetOffset)
    case ResetOffset => s.(offset := 0, pc := SetCallback)
    case SetCallback => s.(trxCb := s.cb, pc := EnableIrq)
    case EnableIrq => s.(irq := true, pc := Idle)
  }

  predicate Enabled(s: State, step: Step) {
    match step
    case TxReady(n) => s.irq && (s.offset < s.len ==> s.len <= |s.call.data| && n <= s.len - s.offset)
    case TxTimeout => s.timer && s.offset <= |s.call.data|
    case Send(_, _) => s.pc == Idle
    case SetCb(_) => s.pc == Idle
    case Thread => s.pc != Idle
  }

  function Next(s: State, step: Step): State
    requires Enabled(s, step)
  {
    match step
    case TxReady(n) => HandleTxReady(s, n)
    case TxTimeout => EndTransfer(s, SERIAL_SEND_TIMEOUT_EXPIRED)
    case Send(user, data) =>
      if s.sem == 0 then s   // SERIAL_SEND_BUSY
      else s.(sem := 0, pc := SaveBuf, call := Call(user, data, s.cb),
              log := s.log.(accepted := s.log.accepted + if data == [] then 0 else 1))
    case SetCb(cb) => s.(cb := cb)
    case Thread => ThreadStep(s)
  }

  // ---------- The handshake, in every interleaving ----------

  /** The send call got the semaphore and has not yet set the length. */
  predicate Preparing(s: State) {
    s.pc == SaveBuf || s.pc == SetBuf || s.pc == SetLen
  }

  predicate Transferring(s: State) {
    s.len > 0
  }

  /** A send of no bytes took the semaphore. */
  predicate Stuck(s: State) {
    s.sem == 0 && s.len == 0 && s.offset == 0 && s.call.data == [] && !s.timer
  }

  ghost predicate Inv(s: State) {
    // The semaphore is out exactly while a transfer is prepared or under way, or for good.
    && s.sem == (if Preparing(s) || Transferring(s) || Stuck(s) then 0 else 1)
    && (s.len == 0 ==> s.offset == 0)
    && (Preparing(s) ==> s.len == 0)
    && (Transferring(s) ==> s.len == |s.call.data| && s.offset < s.len && s.buf == s.call.user)
    // A running timer has a transfer to end, and a transfer of which a part is out has a running timer.
    && (s.timer ==> Transferring(s))
    && (s.offset > 0 ==> s.timer)
    // Every accepted send ended exactly once, but for the one under way.
    && s.log.accepted == |s.log.ends| + (if Transferring(s) || (Preparing(s) && s.call.data != []) then 1 else 0)
    // Between transfers uart_tx_buf is what it was before the first.
    && s.bak == HOME
    && (s.pc == SaveBuf || s.pc == SetBuf || s.sem == 1 ==> s.buf == HOME)
    && (s.pc == SetLen ==> s.buf == s.call.user)
  }

  lemma EndKeepsInv(s: State, status: Status)
    requires Inv(s.(offset := 0)) && s.offset <= s.len && Transferring(s)
    ensures Inv(EndTransfer(s, status))
  {
  }

  lemma FilledKeepsInv(s: State, n: nat)
    requires Inv(s) && Transferring(s) && n <= s.len - s.offset
    ensures Inv(Filled(s, n).(offset := 0))
    ensures s.offset + n < s.len ==> Inv(Filled(s, n).(timer := true))
  {
  }

  lemma TxReadyKeepsInv(s: State, n: nat)
    requires Inv(s) && Enabled(s, TxReady(n))
    ensures Inv(HandleTxReady(s, n))
  {
    if s.offset < s.len {
      FilledKeepsInv(s, n);
      if s.offset + n == s.len {
        EndKeepsInv(Filled(s, n), SERIAL_SEND_SUCCESS);
      }
    }
  }

  lemma ThreadKeepsInv(s: State)
    requires Inv(s) && s.pc != Idle
    ensures Inv(ThreadStep(s))
  {
  }

  lemma StepKeepsInv(s: State, step: Step)
    requires Inv(s) && Enabled(s, step)
    ensures Inv(Next(s, step))
  {
    match step
    case TxReady(n) => TxReadyKeepsInv(s, n);
    case TxTimeout => EndKeepsInv(s, SERIAL_SEND_TIMEOUT_EXPIRED);
    case Thread => ThreadKeepsInv(s);
    case _ =>
  }

  predicate IsRun(s: State, steps: seq<Step>)
    decreases |steps|
  {
    steps == [] || (Enabled(s, steps[0]) && IsRun(Next(s, steps[0]), steps[1..]))
  }

  function After(s: State, steps: seq<Step>): State
    requires IsRun(s, steps)
    decreases |steps|
  {
    if steps == [] then s else After(Next(s, steps[0]), steps[1..])
  }

  lemma InitHolds()
    ensures Inv(Init()) && Clean(Init())
  {
  }

  lemma {:induction false} RunKeepsInv(s: State, steps: seq<Step>)
    requires Inv(s) && IsRun(s, steps)
    ensures Inv(After(s, steps))
    decreases |steps|
  {
    if steps != [] {
      StepKeepsInv(s, steps[0]);
      RunKeepsInv(Next(s, steps[0]), steps[1..]);
    }
  }

  /**
    In every interleaving each accepted send of at least one byte has ended exactly once, by
    success or by timeout, but for at most the one that holds the semaphore now.
   */
  lemma EverySendEndsOnce(steps: seq<Step>) returns (t: State)
    requires IsRun(Init(), steps)
    ensures t == After(Init(), steps)
    ensures |t.log.ends| <= t.log.accepted <= |t.log.ends| + 1
    ensures t.log.accepted > |t.log.ends| <==> Transferring(t) || (Preparing(t) && t.call.data != [])
    ensures t.sem == 0 <==> Preparing(t) || Transferring(t) || Stuck(t)
    ensures t.timer ==> t.offset < t.len == |t.call.data|
    ensures t.offset > 0 ==> t.timer
    ensures t.sem == 1 ==> t.buf == HOME && t.len == 0
  {
    InitHolds();
    RunKeepsInv(Init(), steps);
    t := After(Init(), steps);
  }

  // ---------- What the send call, the TX interrupt and the timer do ----------

  /** What a send call that is granted, and that no interrupt disturbs, leaves of any state. */
  lemma UndisturbedCall(s: State, user: nat, data: seq<byte>)
    requires s.pc == Idle && s.sem != 0
    ensures ThreadStep(ThreadStep(ThreadStep(ThreadStep(ThreadStep(ThreadStep(Next(s, Send(user, data))))))))
         == s.(sem := 0, bak := s.buf, buf := user, len := |data|, offset := 0, trxCb := s.cb, irq := true,
               call := Call(user, data, s.cb), log := Next(s, Send(user, data)).log)
  {
  }

  /** The interrupt with bytes to send: all of them end the transfer, fewer start the timer. */
  lemma TxReadyDoes(s: State, n: nat)
    requires Inv(s) && Transferring(s) && Enabled(s, TxReady(n))
    ensures var t := Next(s, TxReady(n));
            && t.log.wire == s.log.wire + s.call.data[s.offset..s.offset + n]
            && (s.offset + n < |s.call.data| ==>
                  t.timer && t.irq && t.sem == 0 && t.offset == s.offset + n && t.len == s.len && t.trxCb == s.trxCb
                  && t.log.ends == s.log.ends && t.log.callbacks == s.log.callbacks)
            && (s.offset + n == |s.call.data| ==>
                  !t.timer && t.sem == 1 && t.len == 0 && t.buf == HOME && t.trxCb == None
                  && t.log.ends == s.log.ends + [SERIAL_SEND_SUCCESS]
                  && t.log.callbacks == s.log.callbacks + Telling(s.trxCb, SERIAL_SEND_SUCCESS))
  {
  }

  /** With nothing to send it turns itself off, and nothing else. */
  lemma TxReadyTurnsOff(s: State, n: nat)
    requires Inv(s) && !Transferring(s) && Enabled(s, TxReady(n))
    ensures Next(s, TxReady(n)) == s.(irq := false)
  {
  }

  /** The timer gives the transfer up, and says so. */
  lemma TimeoutDoes(s: State)
    requires Inv(s) && Enabled(s, TxTimeout)
    ensures var t := Next(s, TxTimeout);
            && !t.timer && t.sem == 1 && t.len == 0 && t.buf == HOME && t.trxCb == None
            && t.log.ends == s.log.ends + [SERIAL_SEND_TIMEOUT_EXPIRED]
            && t.log.callbacks == s.log.callbacks + Telling(s.trxCb, SERIAL_SEND_TIMEOUT_EXPIRED)
            && t.log.wire == s.log.wire
  {
  }

  predicate NoInterrupt(steps: seq<Step>) {
    forall i :: 0 <= i < |steps| ==> !steps[i].TxReady?
  }

  ghost predicate CanEndByItself(s: State) {
    exists steps :: IsRun(s, steps) && NoInterrupt(steps) && After(s, steps).sem == 1
  }

  lemma {:induction false} WaitsOn(s: State, steps: seq<Step>)
    requires s.pc == Idle && s.sem == 0 && !s.timer && IsRun(s, steps) && NoInterrupt(steps)
    ensures After(s, steps).sem == 0
    decreases |steps|
  {
    if steps != [] {
      assert !steps[0].TxReady?;
      WaitsOn(Next(s, steps[0]), steps[1..]);
    }
  }

  /**
    A transfer can end without another TX interrupt exactly if its timer runs, and it does as soon
    as a byte of it is out.
   */
  lemma TransferEndsIff(s: State)
    requires Inv(s) && Transferring(s) && s.pc == Idle
    ensures CanEndByItself(s) <==> s.timer
    ensures s.offset > 0 ==> CanEndByItself(s)
  {
    if s.timer {
      TimeoutDoes(s);
      var steps := Prepend(s, TxTimeout, []);
      assert IsRun(s, steps) && NoInterrupt(steps) && After(s, steps).sem == 1;
    } else {
      forall steps | IsRun(s, steps) && NoInterrupt(steps) ensures After(s, steps).sem != 1 {
        WaitsOn(s, steps);
      }
    }
  }

  // ---------- A send of no bytes ----------

  lemma StuckStep(s: State, step: Step)
    requires Stuck(s) && Enabled(s, step)
    ensures Stuck(Next(s, step)) && Next(s, step).log.ends == s.log.ends
  {
  }

  lemma {:induction false} StuckForever(s: State, steps: seq<Step>)
    requires Stuck(s) && IsRun(s, steps)
    ensures Stuck(After(s, steps)) && After(s, steps).log.ends == s.log.ends
    decreases |steps|
  {
    if steps != [] {
      StuckStep(s, steps[0]);
      hide Stuck;
      StuckForever(Next(s, steps[0]), steps[1..]);
    }
  }

  lemma Prepend(s: State, step: Step, rest: seq<Step>) returns (steps: seq<Step>)
    requires Enabled(s, step) && IsRun(Next(s, step), rest)
    ensures steps == [step] + rest && IsRun(s, steps) && After(s, steps) == After(Next(s, step), rest)
  {
    steps := [step] + rest;
    assert steps[1..] == rest;
  }

  /** The send call runs through and the interrupt then takes all its bytes at once. */
  lemma UndisturbedSend(s: State) returns (steps: seq<Step>)
    requires s.pc == SaveBuf && s.call.data != []
    ensures IsRun(s, steps) && After(s, steps).sem == 1
  {
    var s1 := ThreadStep(s);
    var s2 := ThreadStep(s1);
    var s3 := ThreadStep(s2);
    var s4 := ThreadStep(s3);
    var s5 := ThreadStep(s4);
    var s6 := ThreadStep(s5);
    steps := Prepend(s6, TxReady(|s.call.data|), []);
    steps := Prepend(s5, Thread, steps);
    steps := Prepend(s4, Thread, steps);
    steps := Prepend(s3, Thread, steps);
    steps := Prepend(s2, Thread, steps);
    steps := Prepend(s1, Thread, steps);
    steps := Prepend(s, Thread, steps);
  }

  /** The semaphore that a send call takes can come back exactly when the call has bytes to send. */
  lemma SemaphoreReturnsIff(s: State, user: nat, data: seq<byte>)
    requires Inv(s) && s.pc == Idle && s.sem == 1
    ensures (exists steps ::
               IsRun(Next(s, Send(user, data)), steps) && After(Next(s, Send(user, data)), steps).sem == 1)
       <==> data != []
  {
    var t := Next(s, Send(user, data));
    if data == [] {
      forall steps | IsRun(t, steps) ensures After(t, steps).sem == 0 {
        StuckForever(t, steps);
      }
    } else {
      var steps := UndisturbedSend(t);
    }
  }

  // ---------- Callbacks and bytes, as long as the send call is not raced ----------

  /** Every end was reported, and the wire carries each transfer's bytes once and in order. */
  ghost predicate Clean(s: State) {
    !s.log.raced ==> Reported(s) && OnWire(s) && Window(s)
  }

  ghost predicate Reported(s: State) {
    && s.log.callbacks == s.log.expected
    && (Transferring(s) && s.pc != ResetOffset && s.pc != SetCallback ==> s.trxCb == s.call.wants)
  }

  ghost predicate OnWire(s: State) {
    s.offset <= |s.call.data| && s.log.wire == s.log.sent + s.call.data[..s.offset]
  }

  /** What holds while the send call is under way. */
  ghost predicate Window(s: State) {
    && (s.pc == ResetOffset || s.pc == SetCallback ==> s.offset == 0 && !s.timer && s.sem == 0)
    && (s.pc == ResetOffset || s.pc == SetCallback ==> s.call.data != [] ==> Transferring(s))
    && (s.pc == ResetOffset || s.pc == SetCallback || Preparing(s) ==> s.call.wants == s.cb)
    && (s.sem == 1 || Preparing(s) ==> s.trxCb == None)
  }

  lemma EndKeepsClean(s: State, status: Status)
    requires Reported(s) && OnWire(s) && Transferring(s) && s.pc != ResetOffset && s.pc != SetCallback && !Preparing(s)
    ensures Reported(EndTransfer(s, status)) && OnWire(EndTransfer(s, status)) && Window(EndTransfer(s, status))
  {
  }

  lemma FilledKeepsClean(s: State, n: nat)
    requires Reported(s) && OnWire(s) && Window(s) && s.pc != ResetOffset && s.pc != SetCallback
    requires s.sem == 0 && !Preparing(s) && s.offset < s.len <= |s.call.data| && n <= s.len - s.offset
    ensures Reported(Filled(s, n)) && OnWire(Filled(s, n)) && Window(Filled(s, n))
  {
    assert s.call.data[..s.offset] + s.call.data[s.offset..s.offset + n] == s.call.data[..s.offset + n];
  }

  lemma TxReadyKeepsClean(s: State, n: nat)
    requires Inv(s) && Clean(s) && Enabled(s, TxReady(n))
    ensures Clean(HandleTxReady(s, n))
  {
    if s.offset < s.len && !HandleTxReady(s, n).log.raced {
      assert Transferring(s) && !Preparing(s);
      hide Inv, OnWire;
      var t := Filled(s, n);
      FilledKeepsClean(s, n);
      if t.offset == t.len {
        EndKeepsClean(t, SERIAL_SEND_SUCCESS);
      }
    }
  }

  lemma ThreadKeepsClean(s: State)
    requires Inv(s) && Reported(s) && OnWire(s) && Window(s) && s.pc != Idle
    ensures Reported(ThreadStep(s)) && OnWire(ThreadStep(s)) && Window(ThreadStep(s))
  {
  }

  lemma StepKeepsClean(s: State, step: Step)
    requires Inv(s) && Clean(s) && Enabled(s, step)
    ensures Clean(Next(s, step))
  {
    if !s.log.raced {
      match step
      case TxReady(n) => TxReadyKeepsClean(s, n);
      case TxTimeout => EndKeepsClean(s, SERIAL_SEND_TIMEOUT_EXPIRED);
      case Thread => ThreadKeepsClean(s);
      case _ =>
    }
  }

  /**
    In every run in which no interrupt raced a send call, each end of a transfer was reported
    once, to the callback that its send call had, and the wire carried each transfer's bytes once.
   */
  lemma {:induction false} RunKeepsClean(s: State, steps: seq<Step>)
    requires Inv(s) && Clean(s) && IsRun(s, steps)
    ensures Clean(After(s, steps))
    decreases |steps|
  {
    if steps != [] {
      StepKeepsInv(s, steps[0]);
      StepKeepsClean(s, steps[0]);
      RunKeepsClean(Next(s, steps[0]), steps[1..]);
    }
  }

  predicate NoSend(steps: seq<Step>) {
    forall i :: 0 <= i < |steps| ==> !steps[i].Send?
  }

  /** Nothing that happens before the next send call can race the one that got to `s`. */
  ghost predicate CannotRace(s: State) {
    forall steps :: IsRun(s, steps) && NoSend(steps) ==> !After(s, steps).log.raced
  }

  /** With the TX interrupt off until the send call turns it on, there is no race. */
  lemma {:induction false} QuietSend(s: State, steps: seq<Step>)
    requires !s.log.raced && (s.pc == Idle || !s.irq) && IsRun(s, steps) && NoSend(steps)
    ensures !After(s, steps).log.raced
    decreases |steps|
  {
    if steps != [] {
      QuietSend(Next(s, steps[0]), steps[1..]);
    }
  }

  /** With it on, the transfer may be over before the send call stored the callback: nobody is told. */
  lemma LostCallback(s: State) returns (steps: seq<Step>)
    requires s.pc == SaveBuf && s.irq && s.call.data != [] && s.offset == 0 && s.trxCb == None
    ensures IsRun(s, steps) && NoSend(steps)
    ensures After(s, steps).log.raced && After(s, steps).sem == 1
    ensures After(s, steps).log.ends == s.log.ends + [SERIAL_SEND_SUCCESS]
    ensures After(s, steps).log.expected == s.log.expected + Telling(s.call.wants, SERIAL_SEND_SUCCESS)
    ensures After(s, steps).log.callbacks == s.log.callbacks
  {
    var s1 := ThreadStep(s);
    var s2 := ThreadStep(s1);
    var s3 := ThreadStep(s2);
    steps := Prepend(s3, TxReady(|s.call.data|), []);
    steps := Prepend(s2, Thread, steps);
    steps := Prepend(s1, Thread, steps);
    steps := Prepend(s, Thread, steps);
  }

  /** Or some bytes are sent before the offset is reset: they go out twice. */
  lemma DuplicatedBytes(s: State) returns (steps: seq<Step>)
    requires s.pc == SaveBuf && s.irq && |s.call.data| >= 2 && s.offset == 0
    ensures IsRun(s, steps) && NoSend(steps)
    ensures After(s, steps).log.raced && After(s, steps).sem == 1
    ensures After(s, steps).log.wire == s.log.wire + s.call.data[..1] + s.call.data
  {
    var s1 := ThreadStep(s);
    var s2 := ThreadStep(s1);
    var s3 := ThreadStep(s2);
    var s4 := HandleTxReady(s3, 1);
    var s5 := ThreadStep(s4);
    assert s5.call.data[0..|s.call.data|] == s.call.data && s3.call.data[0..1] == s.call.data[..1];
    steps := Prepend(s5, TxReady(|s.call.data|), []);
    steps := Prepend(s4, Thread, steps);
    steps := Prepend(s3, TxReady(1), steps);
    steps := Prepend(s2, Thread, steps);
    steps := Prepend(s1, Thread, steps);
    steps := Prepend(s, Thread, steps);
  }

  // Such a send can be reached: the interrupt that takes the last byte leaves itself enabled.

  lemma {:induction false} RunAppend(s: State, steps: seq<Step>, step: Step)
    requires IsRun(s, steps) && Enabled(After(s, steps), step)
    ensures IsRun(s, steps + [step]) && After(s, steps + [step]) == Next(After(s, steps), step)
    decreases |steps|
  {
    if steps == [] {
      assert [step][1..] == [];
    } else {
      assert (steps + [step])[1..] == steps[1..] + [step];
      RunAppend(Next(s, steps[0]), steps[1..], step);
    }
  }

  lemma Extend(run: seq<Step>, step: Step) returns (steps: seq<Step>)
    requires IsRun(Init(), run) && Enabled(After(Init(), run), step)
    ensures steps == run + [step] && IsRun(Init(), steps)
    ensures After(Init(), steps) == Next(After(Init(), run), step)
  {
    steps := run + [step];
    RunAppend(Init(), run, step);
  }

  lemma {:induction false} RunConcat(run: seq<Step>, more: seq<Step>) returns (steps: seq<Step>)
    requires IsRun(Init(), run) && IsRun(After(Init(), run), more)
    ensures steps == run + more && IsRun(Init(), steps)
    ensures After(Init(), steps) == After(After(Init(), run), more)
    decreases |more|
  {
    hide Next, Enabled;
    if more == [] {
      steps := run;
      assert run + more == run;
    } else {
      steps := Extend(run, more[0]);
      steps := RunConcat(steps, more[1..]);
      assert run + more == run + [more[0]] + more[1..];
    }
  }

  /** A first send that ends, with callback `cb`: the next may begin, with the interrupt on. */
  lemma InterruptStaysOn(user: nat, data: seq<byte>, cb: nat) returns (steps: seq<Step>)
    requires data != []
    ensures IsRun(Init(), steps)
    ensures After(Init(), steps).pc == Idle && After(Init(), steps).sem == 1 && After(Init(), steps).irq
    ensures After(Init(), steps).offset == 0
    ensures After(Init(), steps).trxCb == None && After(Init(), steps).cb == Some(cb)
    ensures !After(Init(), steps).log.raced && After(Init(), steps).log.ends == [SERIAL_SEND_SUCCESS]
    ensures After(Init(), steps).log.callbacks == After(Init(), steps).log.expected == [Told(cb, SERIAL_SEND_SUCCESS)]
    ensures After(Init(), steps).log.wire == data
  {
    steps := [];
    steps := Extend(steps, SetCb(Some(cb)));
    steps := Extend(steps, Send(user, data));
    steps := Extend(steps, Thread);
    steps := Extend(steps, Thread);
    steps := Extend(steps, Thread);
    steps := Extend(steps, Thread);
    steps := Extend(steps, Thread);
    steps := Extend(steps, Thread);
    steps := Extend(steps, TxReady(|data|));
  }

  /** A run whose second transfer is over, and whose callback was never told. */
  lemma CallbackIsLost(user: nat, first: seq<byte>, second: seq<byte>, cb: nat) returns (steps: seq<Step>)
    requires first != [] && second != []
    ensures IsRun(Init(), steps) && After(Init(), steps).sem == 1
    ensures After(Init(), steps).log.ends == [SERIAL_SEND_SUCCESS, SERIAL_SEND_SUCCESS]
    ensures After(Init(), steps).log.expected == [Told(cb, SERIAL_SEND_SUCCESS), Told(cb, SERIAL_SEND_SUCCESS)]
    ensures After(Init(), steps).log.callbacks == [Told(cb, SERIAL_SEND_SUCCESS)]
  {
    steps := InterruptStaysOn(user, first, cb);
    steps := Extend(steps, Send(user, second));
    var s := After(Init(), steps);
    var more := LostCallback(s);
    steps := RunConcat(steps, more);
  }

  /** A run that sends a byte of its second transfer twice. */
  lemma ByteGoesOutTwice(user: nat, first: seq<byte>, second: seq<byte>) returns (steps: seq<Step>)
    requires first != [] && |second| >= 2
    ensures IsRun(Init(), steps) && After(Init(), steps).sem == 1
    ensures After(Init(), steps).log.wire == first + second[..1] + second
  {
    steps := InterruptStaysOn(user, first, 0);
    steps := Extend(steps, Send(user, second));
    var s := After(Init(), steps);
    var more := DuplicatedBytes(s);
    steps := RunConcat(steps, more);
  }

  /** A send call cannot be raced exactly when the TX interrupt is off at that moment. */
  lemma NoRaceIff(s: State, user: nat, data: seq<byte>)
    requires Inv(s) && s.pc == Idle && s.sem == 1 && Clean(s) && !s.log.raced && data != []
    ensures CannotRace(Next(s, Send(user, data))) <==> !s.irq
  {
    var t := Next(s, Send(user, data));
    if s.irq {
      var steps := LostCallback(t);
    } else {
      forall steps | IsRun(t, steps) && NoSend(steps) ensures !After(t, steps).log.raced {
        QuietSend(t, steps);
      }
    }
  }

  // ---------- When a send call keeps its promises ----------

  /** Until the next send call, each end is told to its callback and the bytes go out once, in order. */
  ghost predicate KeepsPromises(s: State) {
    forall steps :: IsRun(s, steps) && NoSend(steps) ==> Kept(After(s, steps))
  }

  ghost predicate Kept(s: State) {
    s.log.callbacks == s.log.expected && OnWire(s)
  }

  /** A send of one byte with nobody to tell: a race does it no harm. */
  ghost predicate Harmless(s: State) {
    && s.call.wants == None && |s.call.data| == 1
    && s.trxCb == None && (s.pc != Idle ==> s.cb == None)
    && s.offset == 0 && Kept(s)
  }

  lemma HarmlessStep(s: State, step: Step)
    requires Inv(s) && Harmless(s) && Enabled(s, step) && !step.Send?
    ensures Harmless(Next(s, step))
  {
    if step.TxReady? && s.offset < s.len {
      assert s.call.data[..0] + s.call.data[0..step.n] == s.call.data[..step.n];
    }
  }

  lemma {:induction false} HarmlessRun(s: State, steps: seq<Step>)
    requires Inv(s) && Harmless(s) && IsRun(s, steps) && NoSend(steps)
    ensures Harmless(After(s, steps))
    decreases |steps|
  {
    hide Inv, Harmless;
    if steps != [] {
      StepKeepsInv(s, steps[0]);
      assert !steps[0].Send?;
      HarmlessStep(s, steps[0]);
      HarmlessRun(Next(s, steps[0]), steps[1..]);
    }
  }

  /** A byte is in the UART when the send call resets the offset: it is still to be sent. */
  lemma ByteIsForgotten(s: State) returns (steps: seq<Step>)
    requires s.pc == SaveBuf && s.irq && |s.call.data| >= 2 && s.offset == 0 && OnWire(s)
    ensures IsRun(s, steps) && NoSend(steps) && !OnWire(After(s, steps))
  {
    var s1 := ThreadStep(s);
    var s2 := ThreadStep(s1);
    var s3 := ThreadStep(s2);
    var s4 := HandleTxReady(s3, 1);
    steps := Prepend(s4, Thread, []);
    steps := Prepend(s3, TxReady(1), steps);
    steps := Prepend(s2, Thread, steps);
    steps := Prepend(s1, Thread, steps);
    steps := Prepend(s, Thread, steps);
  }

  /**
    Whatever the interrupt and the timer do, a send call has its end told to its callback and its
    bytes sent once, exactly if the TX interrupt is off when it gets the semaphore, or it sends one
    byte without a callback.
   */
  lemma SendIsSafeIff(s: State, user: nat, data: seq<byte>)
    requires Inv(s) && s.pc == Idle && s.sem == 1 && Clean(s) && !s.log.raced && data != []
    ensures KeepsPromises(Next(s, Send(user, data))) <==> !s.irq || (s.cb == None && |data| == 1)
  {
    var t := Next(s, Send(user, data));
    StepKeepsInv(s, Send(user, data));
    StepKeepsClean(s, Send(user, data));
    assert t.offset == 0 && t.trxCb == None && t.pc == SaveBuf && Kept(t);
    hide Inv;
    if !s.irq {
      forall steps | IsRun(t, steps) && NoSend(steps) ensures Kept(After(t, steps)) {
        QuietSend(t, steps);
        RunKeepsClean(t, steps);
      }
    } else if s.cb == None && |data| == 1 {
      forall steps | IsRun(t, steps) && NoSend(steps) ensures Kept(After(t, steps)) {
        HarmlessRun(t, steps);
      }
    } else if s.cb.Some? {
      var steps := LostCallback(t);
      assert IsRun(t, steps) && NoSend(steps) && !Kept(After(t, steps));
    } else {
      var steps := ByteIsForgotten(t);
      assert IsRun(t, steps) && NoSend(steps) && !Kept(After(t, steps));
    }
  }

  // ---------- The handlers and the send call themselves ----------

  class AsyncSender {
    var sem: nat
    var txBuf: nat
    var txBufBak: nat
    var len: nat
    var offset: nat
    var timer: bool
    var trxCb: Callback
    var cb: Callback
    var irq: bool
    // The send call, and the history.
    var pc: Pc
    var user: nat
    var data: seq<byte>
    ghost var wants: Callback
    ghost var log: Log

    ghost function Abs(): State
      reads this
    {
      State(sem, txBuf, txBufBak, len, offset, timer, trxCb, cb, irq, pc, Call(user, data, wants), log)
    }

    constructor ()
      ensures Abs() == Init()
    {
      sem, txBuf, txBufBak, len, offset, timer, trxCb, cb, irq := 1, HOME, HOME, 0, 0, false, None, None, false;
      pc, user, data, wants, log := Idle, HOME, [], None, Log(0, [], [], [], [], [], false);
    }

    method HandleTxReadyEvt(fifoFill: nat)
      requires Inv(Abs()) && Enabled(Abs(), TxReady(fifoFill))
      modifies this
      ensures Inv(Abs()) && Abs() == HandleTxReady(old(Abs()), fifoFill)
    {
      hide Inv, EndTransfer;
      ghost var before := Abs();
      TxReadyKeepsInv(before, fifoFill);
      if len <= offset {
        irq := false;
        return;
      }
      Fill(fifoFill);
      hide Filled;
      if len == offset {
        Finish(SERIAL_SEND_SUCCESS);
      } else {
        timer := true;
      }
    }

    /** uart_fifo_fill took `n` bytes. */
    method Fill(n: nat)
      requires offset < len <= |data| && n <= len - offset
      modifies this`offset, this`log
      ensures Abs() == Filled(old(Abs()), n)
    {
      log := Filled(Abs(), n).log;
      offset := offset + n;
    }

    method UartTxTimeout()
      requires Inv(Abs()) && Enabled(Abs(), TxTimeout)
      modifies this
      ensures Inv(Abs()) && Abs() == EndTransfer(old(Abs()), SERIAL_SEND_TIMEOUT_EXPIRED)
    {
      EndKeepsInv(Abs(), SERIAL_SEND_TIMEOUT_EXPIRED);
      Finish(SERIAL_SEND_TIMEOUT_EXPIRED);
    }

    /** The statements that both endings share. */
    method Finish(status: Status)
      requires offset <= |data|
      modifies this
      ensures Abs() == EndTransfer(old(Abs()), status)
    {
      log := LogEnd(Abs(), status);
      offset, len, txBuf, timer, sem := 0, 0, txBufBak, false, 1;
      trxCb := None;   // scheduled, if it was not NULL
    }

    /**
      The head of zb_osif_serial_send_data. Without a UART that is `ready`, there and awake, and
      when the semaphore was not there in time, tx_data_cb is `told` so and nothing else happens.
     */
    method SendData(user: nat, data: seq<byte>, ready: bool) returns (told: seq<Told>)
      requires Inv(Abs()) && pc == Idle
      modifies this
      ensures Inv(Abs()) && Abs() == if ready then Next(old(Abs()), Send(user, data)) else old(Abs())
      ensures told == if !ready then Telling(cb, SERIAL_SEND_ERROR)
                      else if old(sem) == 0 then Telling(cb, SERIAL_SEND_BUSY)
                      else []
    {
      ghost var before := Abs();
      StepKeepsInv(before, Send(user, data));
      hide Inv;
      if !ready {
        return Telling(cb, SERIAL_SEND_ERROR);
      }
      if sem == 0 {
        return Telling(cb, SERIAL_SEND_BUSY);
      }
      sem, this.user, this.data, wants, pc := 0, user, data, cb, SaveBuf;
      log := Next(before, Send(user, data)).log;
      return [];
    }

    /** The next statement of zb_osif_serial_send_data after the semaphore was taken. */
    method SendStatement()
      requires Inv(Abs()) && pc != Idle
      modifies this
      ensures Inv(Abs()) && Abs() == ThreadStep(old(Abs()))
    {
      ThreadKeepsInv(Abs());
      hide Inv;
      match pc
      case SaveBuf => txBufBak, pc := txBuf, SetBuf;
      case SetBuf => txBuf, pc := user, SetLen;
      case SetLen => len, pc := |data|, ResetOffset;
      case ResetOffset => offset, pc := 0, SetCallback;
      case SetCallback => trxCb, pc := cb, EnableIrq;
      case EnableIrq => irq, pc := true, Idle;
    }
  }
}
