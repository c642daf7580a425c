/**
  Reception on the asynchronous UART (zb_nrf_async_serial.c): the RX interrupt, the partial-RX
  timer, the notification callback and the receive call share the user's buffer, a ring buffer
  and a semaphore. Interrupt and timer handlers are atomic; the ZBOSS thread goes statement by
  statement, and the handlers may run between any two of its statements.
 */
module AsyncSerialRx {
  import opened Basics

  // The thread's next statement. In Recv*, `want` is the length asked for.
  datatype Pc =
    | Idle
    | RecvMask(want: nat)       // semaphore taken; uart_irq_rx_disable is next
    | RecvFlush(want: nat)      // ring_buf_get into the user's buffer is next
    | RecvUnmask(want: nat)     // uart_irq_rx_enable is next
    | RecvDecide(want: nat)     // the comparison of offset and length is next
    | RecvReset(want: nat)      // all bytes were there: uart_rx_buf_offset = 0 is next
    | RecvGive                  // k_sem_give is next
    | RecvReturn                // rx_data_cb is next
    | RecvSetLen(want: nat)     // uart_rx_buf_len = len is next
    | RecvSetBuf(want: nat)     // uart_rx_buf = buf is next
    | NotifyClear               // uart_rx_notify read buffer and offset; uart_rx_buf_len = 0 is next
    | NotifyOffset
    | NotifyBuf
    | NotifyStop
    | NotifyGive
    | NotifyReturn

  /** What happened so far. */
  datatype Log = Log(
    received: seq<byte>,    // every byte read from the UART
    delivered: seq<byte>,   // every byte passed to rx_data_cb
    discarded: nat,         // bytes dropped: ring overflow, failed scheduling, no rx_data_cb
    fed: bool               // the RX interrupt came since a buffer was last published
  ) {
    function Receive(chunk: seq<byte>): Log { this.(received := received + chunk, fed := true) }
    function Deliver(bytes: seq<byte>): Log { this.(delivered := delivered + bytes) }
    function Discard(n: nat): Log { this.(discarded := discarded + n) }
  }

  datatype State = State(
    capacity: nat,          // CONFIG_ZIGBEE_UART_RX_BUF_LEN
    ring: seq<byte>,        // rx_ringbuf
    published: bool,        // uart_rx_buf is not NULL
    filled: seq<byte>,      // the first uart_rx_buf_offset bytes of the user's buffer
    len: nat,               // uart_rx_buf_len
    sem: nat,               // rx_done_sem
    timer: bool,            // uart_rx_timer is running
    notifies: nat,          // uart_rx_notify callbacks scheduled and not started
    irq: bool,              // RX interrupt enabled
    cb: bool,               // rx_data_cb is not NULL
    pc: Pc,
    hand: seq<byte>,        // bytes that the thread is about to pass to rx_data_cb
    room: nat,              // size of the buffer of the reception under way
    log: Log
  )

  datatype Step =
    | RxReady(chunk: seq<byte>, ok: bool)   // bytes that uart_fifo_read returns; ok: the stack schedules the callback
    | RxTimeout(ok: bool)
    | NotifyStart
    | RecvCall(want: nat)
    | SetCb(cb: bool)
    | Thread                                // the thread's next statement

  function Init(capacity: nat): State {
    State(capacity, [], false, [], 0, 1, false, 0, true, false, Idle, [], 0, Log([], [], 0, false))
  }

  function Min(a: nat, b: nat): nat {
    if a < b then a else b
  }

  /** k_sem_give on a semaphore with limit 1. */
  function Give(s: State): State {
    s.(sem := 1)
  }

  /** How many bytes the handler asks the UART for. */
  function Asked(s: State): nat {
    if s.published && |s.filled| < s.len then s.len - |s.filled| - Min(|s.ring|, s.len - |s.filled|)
    else s.capacity
  }

  /** zigbee_schedule_callback(uart_rx_notify); on failure the reception is given up. */
  function Schedule(s: State, ok: bool): State {
    if ok then s.(notifies := s.notifies + 1)
    else Give(s.(log := s.log.Discard(|s.filled|), filled := [], published := false))
  }

  /** A full buffer ends the reception; otherwise the partial-RX timer is (re)started. */
  function CompleteOrWait(s: State, ok: bool): State {
    if |s.filled| == s.len then Schedule(s.(len := 0, timer := false), ok) else s.(timer := true)
  }

  function HandleRxReady(s: State, chunk: seq<byte>, ok: bool): State
    requires |s.ring| <= s.capacity
  {
    var r := s.(log := s.log.Receive(chunk));
    if s.published && |s.filled| < s.len then
      var n := Min(|s.ring|, s.len - |s.filled|);
      var t := r.(ring := s.ring[n..], filled := s.filled + s.ring[..n] + chunk);
      CompleteOrWait(t, ok)
    else
      var space := s.capacity - |s.ring|;
      var drop := if |chunk| > space then Min(|s.ring|, |chunk| - space) else 0;
      r.(ring := s.ring[drop..] + chunk, log := r.log.Discard(drop))
  }

  function UartRxTimeout(s: State, ok: bool): State {
    var t := s.(timer := false);
    if s.published then Schedule(t.(len := 0), ok) else t
  }

  function Deliver(s: State): State {
    s.(log := if s.cb then s.log.Deliver(s.hand) else s.log.Discard(|s.hand|), hand := [], pc := Idle)
  }

  function ThreadStep(s: State): State
    requires s.pc != Idle
  {
    match s.pc
    case RecvMask(want) => s.(irq := false, pc := RecvFlush(want))
    case RecvFlush(want) =>
      var n := Min(|s.ring|, want);
      s.(filled := s.ring[..n], ring := s.ring[n..], room := want, pc := RecvUnmask(want))
    case RecvUnmask(want) => s.(irq := true, pc := RecvDecide(want))
    case RecvDecide(want) =>
      if |s.filled| == want then s.(pc := RecvReset(want)) else s.(pc := RecvSetLen(want))
    case RecvReset(_) => s.(hand := s.filled, filled := [], pc := RecvGive)
    case RecvGive => Give(s).(pc := RecvReturn)
    case RecvReturn => Deliver(s)
    case RecvSetLen(want) => s.(len := want, pc := RecvSetBuf(want))
    case RecvSetBuf(_) => s.(published := true, pc := Idle, log := s.log.(fed := false))
    case NotifyClear => s.(len := 0, pc := NotifyOffset)
    case NotifyOffset => s.(filled := [], pc := NotifyBuf)
    case NotifyBuf => s.(published := false, pc := NotifyStop)
    case NotifyStop => s.(timer := false, pc := NotifyGive)
    case NotifyGive => Give(s).(pc := NotifyReturn)
    case NotifyReturn => Deliver(s)
  }

  predicate Enabled(s: State, step: Step) {
    match step
    case RxReady(chunk, _) => s.irq && |chunk| <= Asked(s) && |s.ring| <= s.capacity
    case RxTimeout(_) => s.timer
    case NotifyStart => s.pc == Idle && s.notifies > 0
    case RecvCall(_) => s.pc == Idle
    case SetCb(_) => s.pc == Idle
    case Thread => s.pc != Idle
  }

  function Next(s: State, step: Step): State
    requires Enabled(s, step)
  {
    match step
    case RxReady(chunk, ok) => HandleRxReady(s, chunk, ok)
    case RxTimeout(ok) => UartRxTimeout(s, ok)
    case NotifyStart => s.(notifies := s.notifies - 1, hand := s.filled, pc := NotifyClear)
    case RecvCall(want) =>
      // Refused without a callback, for length 0, and while a reception is outstanding.
      if !s.cb || want == 0 || s.sem == 0 then s
      else s.(sem := 0, pc := RecvMask(want))
    case SetCb(cb) => s.(cb := cb)
    case Thread => ThreadStep(s)
  }

  // ---------- Invariants ----------

  /** The user's buffer has been read by the thread but its offset not yet reset. */
  predicate Duplicated(s: State) {
    s.pc == NotifyClear || s.pc == NotifyOffset
  }

  /** Bytes taken from the UART and not yet passed on, oldest first. */
  function InFlight(s: State): seq<byte> {
    s.hand + (if Duplicated(s) then [] else s.filled) + s.ring
  }

  /** Until something is discarded, what came in is what went out and what is in flight, in order. */
  ghost predicate Conserves(s: State) {
    && (s.log.discarded == 0 ==> s.log.delivered + InFlight(s) == s.log.received)
    && |s.log.delivered| + |InFlight(s)| + s.log.discarded == |s.log.received|
  }

  /** The receive call holds bytes of the ring in a buffer that the handlers do not see yet. */
  predicate Receiving(s: State) {
    s.pc.RecvUnmask? || s.pc.RecvDecide? || s.pc.RecvReset? || s.pc.RecvSetLen? || s.pc.RecvSetBuf?
  }

  predicate Notifying(s: State) {
    s.pc == NotifyClear || s.pc == NotifyOffset || s.pc == NotifyBuf
  }

  /** A receive call was granted and neither completed nor given up. */
  predicate Outstanding(s: State) {
    || s.published || Receiving(s)
    || s.pc.RecvMask? || s.pc.RecvFlush? || s.pc == RecvGive || s.pc == NotifyStop || s.pc == NotifyGive
  }

  // The semaphore is 0 exactly while a reception is outstanding; each reception is ended by one
  // notification, which the handlers leave alone; a running timer has a reception to end, and a
  // reception that waits has a running timer exactly if the interrupt came since it began to wait.
  ghost predicate Handshake(s: State) {
    && s.sem == (if Outstanding(s) then 0 else 1)
    && (s.published ==> s.pc == Idle || Notifying(s))
    && (Notifying(s) ==> s.published)
    && s.notifies + (if Notifying(s) then 1 else 0) == (if s.published && s.len == 0 then 1 else 0)
    && (s.timer ==> s.published && s.len > 0)
    && (s.published && s.len > 0 ==> (s.timer <==> s.log.fed))
    && (s.irq <==> !s.pc.RecvFlush? && !s.pc.RecvUnmask?)
  }

  /** The handlers stay inside the user's buffer and inside the ring. */
  ghost predicate Bounds(s: State) {
    && |s.ring| <= s.capacity
    && |s.filled| <= s.room
    && (s.published && s.len > 0 ==> |s.filled| < s.len == s.room)
    && (Receiving(s) ==> s.room == s.pc.want)
    && (s.pc.RecvReset? ==> |s.filled| == s.pc.want)
    && (s.pc.RecvSetLen? || s.pc.RecvSetBuf? ==> |s.filled| < s.pc.want)
    && (s.pc.RecvSetBuf? ==> s.len == s.pc.want)
    && (!s.published && !Receiving(s) ==> s.filled == [])
    && (Duplicated(s) ==> s.hand == s.filled)
    && (s.pc == NotifyBuf ==> s.filled == [])
    && (s.pc == Idle || s.pc.RecvMask? || s.pc.RecvFlush? || Receiving(s) ==> s.hand == [])
  }

  ghost predicate Inv(s: State) {
    Handshake(s) && Bounds(s) && Conserves(s)
  }

  lemma HandshakeKept(s: State, step: Step)
    requires Handshake(s) && Bounds(s) && Enabled(s, step)
    ensures Handshake(Next(s, step))
  {
    match step
    case RxReady(chunk, ok) => RxReadyKeepsHandshake(s, chunk, ok);
    case Thread => ThreadKeepsHandshake(s);
    case _ =>
  }

  lemma RxReadyKeepsHandshake(s: State, chunk: seq<byte>, ok: bool)
    requires Handshake(s) && Bounds(s) && Enabled(s, RxReady(chunk, ok))
    ensures Handshake(HandleRxReady(s, chunk, ok))
  {
  }

  lemma ThreadKeepsHandshake(s: State)
    requires Handshake(s) && Bounds(s) && s.pc != Idle
    ensures Handshake(ThreadStep(s))
  {
  }

  lemma BoundsKept(s: State, step: Step)
    requires Handshake(s) && Bounds(s) && Enabled(s, step)
    ensures Bounds(Next(s, step))
  {
    match step
    case RxReady(chunk, ok) => RxReadyKeepsBounds(s, chunk, ok);
    case Thread => ThreadKeepsBounds(s);
    case _ =>
  }

  lemma RxReadyKeepsBounds(s: State, chunk: seq<byte>, ok: bool)
    requires Handshake(s) && Bounds(s) && Enabled(s, RxReady(chunk, ok))
    ensures Bounds(HandleRxReady(s, chunk, ok))
  {
  }

  lemma ThreadKeepsBounds(s: State)
    requires Handshake(s) && Bounds(s) && s.pc != Idle
    ensures Bounds(ThreadStep(s))
  {
  }

  lemma Joined<T>(a: seq<T>, b: seq<T>, c: seq<T>)
    ensures a + (b + c) == a + b + c
  {
  }

  lemma FillJoins<T>(filled: seq<T>, ring: seq<T>, n: nat, chunk: seq<T>)
    requires n <= |ring| && (n == |ring| || chunk == [])
    ensures filled + ring[..n] + chunk + ring[n..] == filled + ring + chunk
  {
    if n == |ring| {
      assert ring[n..] == [] && ring[..n] == ring;
    } else {
      assert ring == ring[..n] + ring[n..];
    }
  }

  lemma StoreJoins<T>(passed: seq<T>, front: seq<T>, ring: seq<T>, chunk: seq<T>,
                      drop: nat, received: seq<T>, discarded: nat)
    requires drop <= |ring| && |passed| + |front + ring| + discarded == |received|
    requires discarded == 0 ==> passed + (front + ring) == received
    ensures |passed| + |front + (ring[drop..] + chunk)| + discarded + drop == |received + chunk|
    ensures discarded + drop == 0 ==> passed + (front + (ring[drop..] + chunk)) == received + chunk
  {
    if drop == 0 {
      assert ring[0..] == ring;
      Joined(front, ring, chunk);
      Joined(passed, front + ring, chunk);
    }
  }

  lemma CompleteConserves(s: State, ok: bool)
    requires Conserves(s) && !Duplicated(s)
    ensures Conserves(CompleteOrWait(s, ok))
  {
    var t := CompleteOrWait(s, ok);
    if t.filled == s.filled {
      assert InFlight(t) == InFlight(s);
    }
  }

  lemma FillHasNoHand(s: State)
    requires Handshake(s) && Bounds(s) && s.published && |s.filled| < s.len
    ensures s.hand == [] && !Duplicated(s)
  {
  }

  /** Filling the user's buffer: from the ring first, from the UART only once the ring is empty. */
  lemma FillConserves(s: State, chunk: seq<byte>, ok: bool)
    requires Handshake(s) && Bounds(s) && Conserves(s) && Enabled(s, RxReady(chunk, ok))
    requires s.published && |s.filled| < s.len
    ensures Conserves(HandleRxReady(s, chunk, ok))
  {
    var n := Min(|s.ring|, s.len - |s.filled|);
    var t := s.(log := s.log.Receive(chunk), ring := s.ring[n..], filled := s.filled + s.ring[..n] + chunk);
    hide Handshake, Bounds, Duplicated, InFlight, CompleteOrWait;
    FillHasNoHand(s);
    FillAlive(s, chunk, n, t);
    assert |Alive(t)| == |Alive(s)| + |chunk|;
    assert Conserves(t);
    CompleteConserves(t, ok);
  }

  /** Storing behind the ring; when it overflows its oldest bytes are discarded. */
  lemma StoreConserves(s: State, chunk: seq<byte>, ok: bool)
    requires Conserves(s) && Enabled(s, RxReady(chunk, ok))
    requires !(s.published && |s.filled| < s.len)
    ensures Conserves(HandleRxReady(s, chunk, ok))
  {
    var front := s.hand + (if Duplicated(s) then [] else s.filled);
    var space := s.capacity - |s.ring|;
    var drop := if |chunk| > space then Min(|s.ring|, |chunk| - space) else 0;
    StoreJoins(s.log.delivered, front, s.ring, chunk, drop, s.log.received, s.log.discarded);
    var t := HandleRxReady(s, chunk, ok);
    assert t.ring == s.ring[drop..] + chunk && t.log.discarded == s.log.discarded + drop;
    assert InFlight(s) == front + s.ring && InFlight(t) == front + t.ring;
    hide InFlight, HandleRxReady;
  }

  lemma ThreadConserves(s: State)
    requires Handshake(s) && Bounds(s) && Conserves(s) && s.pc != Idle
    ensures Conserves(ThreadStep(s))
  {
    if s.pc == RecvReturn || s.pc == NotifyReturn {
      assert s.filled == [];
      Joined(s.log.delivered, s.hand, s.ring);
    } else {
      ThreadKeepsInFlight(s);
    }
  }

  lemma ThreadKeepsInFlight(s: State)
    requires Handshake(s) && Bounds(s) && s.pc != Idle && s.pc != RecvReturn && s.pc != NotifyReturn
    ensures InFlight(ThreadStep(s)) == InFlight(s)
  {
    assert s.pc.RecvFlush? ==> s.filled == [];
    hide Handshake;
    var t := ThreadStep(s);
    if s.pc.RecvFlush? {
      assert s.ring == t.filled + t.ring;
    } else {
      assert t.ring == s.ring;
    }
  }

  lemma StepKeepsInv(s: State, step: Step)
    requires Inv(s) && Enabled(s, step)
    ensures Inv(Next(s, step))
  {
    HandshakeKept(s, step);
    BoundsKept(s, step);
    match step
    case RxReady(chunk, ok) =>
      if s.published && |s.filled| < s.len {
        FillConserves(s, chunk, ok);
      } else {
        StoreConserves(s, chunk, ok);
      }
    case Thread => ThreadConserves(s);
    case _ => assert step == RxTimeout(true) || !step.RxTimeout? ==> InFlight(Next(s, step)) == InFlight(s);
  }

  // ---------- What the RX interrupt takes and leaves ----------

  /** How many bytes fit in the buffer of the waiting reception, or in the handler's own. */
  function Room(s: State): nat {
    if s.published && |s.filled| < s.len then s.len - |s.filled| else s.capacity
  }

  lemma FirstOfBoth<T>(ring: seq<T>, fifo: seq<T>, room: nat)
    ensures ring[..Min(|ring|, room)] + fifo[..Min(|fifo|, room - Min(|ring|, room))]
         == (ring + fifo)[..Min(|ring| + |fifo|, room)]
  {
    if room <= |ring| {
      assert fifo[..0] == [] && (ring + fifo)[..room] == ring[..room];
    } else {
      var k := Min(|fifo|, room - |ring|);
      assert ring[..|ring|] == ring && (ring + fifo)[..|ring| + k] == ring + fifo[..k];
    }
  }

  /** What a waiting reception has after the interrupt read `chunk`, before it is told to anybody. */
  function Topped(s: State, fifo: seq<byte>, chunk: seq<byte>): State {
    var n := Min(|s.ring| + |fifo|, Room(s));
    s.(ring := s.ring[Min(|s.ring|, n)..], filled := s.filled + (s.ring + fifo)[..n], log := s.log.Receive(chunk))
  }

  /**
    A waiting reception gets the first bytes of the ring and the UART, one after the other, as many
    as there is room for, and the UART keeps the rest. A full buffer schedules the notification and
    stops the timer, or gives the reception up; any other starts the timer.
   */
  lemma FillTakes(s: State, fifo: seq<byte>, chunk: seq<byte>, ok: bool)
    requires |s.ring| <= s.capacity && s.published && |s.filled| < s.len
    requires chunk == fifo[..Min(|fifo|, Room(s) - Min(|s.ring|, Room(s)))]
    ensures |chunk| <= Asked(s)
    ensures HandleRxReady(s, chunk, ok)
         == var t := Topped(s, fifo, chunk);
            if |s.ring| + |fifo| < Room(s) then t.(timer := true)
            else if ok then t.(timer := false, len := 0, notifies := s.notifies + 1)
            else t.(timer := false, len := 0, published := false, filled := [], sem := 1,
                    log := t.log.Discard(s.len))
  {
    FirstOfBoth(s.ring, fifo, Room(s));
    Joined(s.filled, s.ring[..Min(|s.ring|, Room(s))], chunk);
    var t := Topped(s, fifo, chunk);
    assert |t.filled| == |s.filled| + Min(|s.ring| + |fifo|, Room(s));
    assert HandleRxReady(s, chunk, ok) == CompleteOrWait(t, ok);
    hide HandleRxReady, Topped;
  }

  lemma NewestOfBoth<T>(ring: seq<T>, chunk: seq<T>, capacity: nat)
    requires |ring| <= capacity && |chunk| <= capacity
    ensures ring[if |chunk| > capacity - |ring| then Min(|ring|, |chunk| - (capacity - |ring|)) else 0..] + chunk
         == (ring + chunk)[|ring + chunk| - Min(|ring + chunk|, capacity)..]
  {
  }

  /** Otherwise the ring holds the newest of its bytes and those of the UART, and nothing else changes. */
  lemma StoreKeepsNewest(s: State, fifo: seq<byte>, chunk: seq<byte>, ok: bool)
    requires |s.ring| <= s.capacity && !(s.published && |s.filled| < s.len)
    requires chunk == fifo[..Min(|fifo|, Room(s))]
    ensures |chunk| <= Asked(s)
    ensures HandleRxReady(s, chunk, ok)
         == var all := s.ring + chunk;
            var lost := |all| - Min(|all|, s.capacity);
            s.(ring := all[lost..], log := s.log.Receive(chunk).Discard(lost))
  {
    var space := s.capacity - |s.ring|;
    var drop := if |chunk| > space then Min(|s.ring|, |chunk| - space) else 0;
    assert HandleRxReady(s, chunk, ok) == s.(ring := s.ring[drop..] + chunk, log := s.log.Receive(chunk).Discard(drop));
    hide HandleRxReady;
    NewestOfBoth(s.ring, chunk, s.capacity);
    var all := s.ring + chunk;
    assert |all| == |s.ring| + |chunk| && drop == |all| - Min(|all|, s.capacity);
  }

  // ---------- Runs ----------

  predicate IsRun(s: State, steps: seq<Step>)
    decreases |steps|
  {
    steps == [] || (Enabled(s, steps[0]) && IsRun(Next(s, steps[0]), steps[1..]))
  }

  function After(s: State, steps: seq<Step>): State
    requires IsRun(s, steps)
    decreases |steps|
  {
    if steps == [] then s else After(Next(s, steps[0]), steps[1..])
  }

  lemma InitHolds(capacity: nat)
    ensures Inv(Init(capacity))
  {
  }

  lemma {:induction false} RunKeepsInv(s: State, steps: seq<Step>)
    requires Inv(s) && IsRun(s, steps)
    ensures Inv(After(s, steps))
    decreases |steps|
  {
    if steps != [] {
      StepKeepsInv(s, steps[0]);
      RunKeepsInv(Next(s, steps[0]), steps[1..]);
    }
  }

  /** The three ways to lose bytes. */
  predicate Loses(s: State, step: Step) {
    match step
    case RxReady(chunk, ok) =>
      if s.published && |s.filled| < s.len then !ok && |s.filled| + Min(|s.ring|, s.len - |s.filled|) + |chunk| == s.len
      else |s.ring| + |chunk| > s.capacity
    case RxTimeout(ok) => !ok && s.filled != []
    case Thread => (s.pc == RecvReturn || s.pc == NotifyReturn) && !s.cb && s.hand != []
    case _ => false
  }

  /** Bytes are discarded when, and only when, a step loses some. */
  lemma DiscardsExactlyWhen(s: State, step: Step)
    requires Inv(s) && Enabled(s, step)
    ensures Next(s, step).log.discarded > s.log.discarded <==> Loses(s, step)
    ensures Next(s, step).log.discarded >= s.log.discarded
  {
    hide InFlight, Conserves;
    if step.Thread? {
      ThreadDiscardsWhen(s);
    }
  }

  lemma ThreadDiscardsWhen(s: State)
    requires s.pc != Idle
    ensures ThreadStep(s).log.discarded > s.log.discarded <==> Loses(s, Thread)
    ensures ThreadStep(s).log.discarded >= s.log.discarded
  {
  }

  /** No interrupt overflowed the ring, no scheduling failed with bytes at hand, and somebody listened. */
  predicate LosesNothing(s: State, steps: seq<Step>)
    requires IsRun(s, steps)
    decreases |steps|
  {
    steps != [] ==> !Loses(s, steps[0]) && LosesNothing(Next(s, steps[0]), steps[1..])
  }

  lemma {:induction false} DiscardedIff(s: State, steps: seq<Step>)
    requires Inv(s) && IsRun(s, steps)
    ensures After(s, steps).log.discarded >= s.log.discarded
    ensures After(s, steps).log.discarded == s.log.discarded <==> LosesNothing(s, steps)
    decreases |steps|
  {
    if steps != [] {
      DiscardsExactlyWhen(s, steps[0]);
      StepKeepsInv(s, steps[0]);
      hide Inv, Next, Enabled, Loses;
      DiscardedIff(Next(s, steps[0]), steps[1..]);
    }
  }

  // ---------- What is not lost stays in order ----------

  /** `f` says where in `b` each element of `a` is. */
  ghost predicate Embeds<T>(a: seq<T>, b: seq<T>, f: seq<nat>) {
    && |f| == |a|
    && (forall i :: 0 <= i < |f| ==> f[i] < |b| && b[f[i]] == a[i])
    && (forall i, j :: 0 <= i < j < |f| ==> f[i] < f[j])
  }

  ghost predicate Subsequence<T>(a: seq<T>, b: seq<T>) {
    exists f :: Embeds(a, b, f)
  }

  lemma SameIsSubsequence<T>(a: seq<T>)
    ensures Subsequence(a, a)
  {
    assert Embeds(a, a, seq(|a|, i => i));
  }

  lemma WithoutMiddle<T>(a: seq<T>, b: seq<T>, c: seq<T>)
    ensures Subsequence(a + c, a + b + c)
  {
    var f := seq(|a| + |c|, i requires 0 <= i => if i < |a| then i else i + |b|);
    assert Embeds(a + c, a + b + c, f);
  }

  lemma SubsequenceOf<T>(a: seq<T>, b: seq<T>, c: seq<T>)
    requires Subsequence(a, b) && Subsequence(b, c)
    ensures Subsequence(a, c)
  {
    var f, g :| Embeds(a, b, f) && Embeds(b, c, g);
    assert Embeds(a, c, seq(|f|, i requires 0 <= i < |f| => g[f[i]]));
  }

  lemma BothLonger<T>(a: seq<T>, b: seq<T>, c: seq<T>)
    requires Subsequence(a, b)
    ensures Subsequence(a + c, b + c)
  {
    var f :| Embeds(a, b, f);
    assert Embeds(a + c, b + c, f + seq(|c|, i requires 0 <= i => |b| + i));
  }

  /** The bytes passed on and those in flight. */
  function Alive(s: State): seq<byte> {
    s.log.delivered + InFlight(s)
  }

  lemma ScheduleShrinks(s: State, ok: bool)
    requires !Duplicated(s)
    ensures Subsequence(Alive(Schedule(s, ok)), Alive(s)) && Schedule(s, ok).log.received == s.log.received
  {
    hide Subsequence;
    if ok {
      SameIsSubsequence(Alive(s));
    } else {
      var d, h := s.log.delivered, s.hand;
      WithoutMiddle(d + h, s.filled, s.ring);
      assert Alive(s) == d + h + s.filled + s.ring;
      assert Alive(Schedule(s, ok)) == d + h + s.ring;
    }
  }

  lemma CompleteShrinks(s: State, ok: bool)
    requires !Duplicated(s)
    ensures Subsequence(Alive(CompleteOrWait(s, ok)), Alive(s)) && CompleteOrWait(s, ok).log.received == s.log.received
  {
    hide Subsequence, Schedule;
    if |s.filled| == s.len {
      ScheduleShrinks(s.(len := 0, timer := false), ok);
    } else {
      SameIsSubsequence(Alive(s));
    }
  }

  lemma FillAlive(s: State, chunk: seq<byte>, n: nat, t: State)
    requires s.hand == [] && !Duplicated(s) && n <= |s.ring| && (n == |s.ring| || chunk == [])
    requires t == s.(log := s.log.Receive(chunk), ring := s.ring[n..], filled := s.filled + s.ring[..n] + chunk)
    ensures Alive(t) == Alive(s) + chunk && !Duplicated(t)
  {
    FillJoins(s.filled, s.ring, n, chunk);
    Joined(s.log.delivered, s.filled + s.ring, chunk);
    assert InFlight(s) == s.filled + s.ring && InFlight(t) == s.filled + s.ring + chunk;
  }

  lemma FillKeepsOrder(s: State, chunk: seq<byte>, ok: bool)
    requires Handshake(s) && Bounds(s) && Enabled(s, RxReady(chunk, ok)) && s.published && |s.filled| < s.len
    requires Subsequence(Alive(s), s.log.received)
    ensures Subsequence(Alive(HandleRxReady(s, chunk, ok)), HandleRxReady(s, chunk, ok).log.received)
  {
    hide Handshake, Bounds, Subsequence, CompleteOrWait, Alive, Duplicated;
    FillHasNoHand(s);
    var n := Min(|s.ring|, s.len - |s.filled|);
    var t := s.(log := s.log.Receive(chunk), ring := s.ring[n..], filled := s.filled + s.ring[..n] + chunk);
    FillAlive(s, chunk, n, t);
    BothLonger(Alive(s), s.log.received, chunk);
    CompleteShrinks(t, ok);
    SubsequenceOf(Alive(CompleteOrWait(t, ok)), Alive(t), t.log.received);
  }

  lemma DropAndAppend<T>(passed: seq<T>, front: seq<T>, ring: seq<T>, chunk: seq<T>, drop: nat, received: seq<T>)
    requires drop <= |ring| && Subsequence(passed + (front + ring), received)
    ensures Subsequence(passed + (front + (ring[drop..] + chunk)), received + chunk)
  {
    hide Subsequence;
    var all, kept := passed + front, ring[drop..];
    assert ring == ring[..drop] + kept;
    Joined(passed, front, ring);
    Joined(all, ring[..drop], kept);
    WithoutMiddle(all, ring[..drop], kept);
    SubsequenceOf(all + kept, all + ring, received);
    BothLonger(all + kept, received, chunk);
    Joined(all, kept, chunk);
    Joined(passed, front, kept + chunk);
  }

  lemma StoreKeepsOrder(s: State, chunk: seq<byte>, ok: bool)
    requires Enabled(s, RxReady(chunk, ok)) && !(s.published && |s.filled| < s.len)
    requires Subsequence(Alive(s), s.log.received)
    ensures Subsequence(Alive(HandleRxReady(s, chunk, ok)), HandleRxReady(s, chunk, ok).log.received)
  {
    hide Subsequence;
    var front := s.hand + (if Duplicated(s) then [] else s.filled);
    var space := s.capacity - |s.ring|;
    var drop := if |chunk| > space then Min(|s.ring|, |chunk| - space) else 0;
    DropAndAppend(s.log.delivered, front, s.ring, chunk, drop, s.log.received);
    var t := HandleRxReady(s, chunk, ok);
    assert t.ring == s.ring[drop..] + chunk && t.log.received == s.log.received + chunk;
    assert InFlight(s) == front + s.ring && InFlight(t) == front + t.ring;
    hide InFlight, HandleRxReady;
  }

  lemma ThreadKeepsOrder(s: State)
    requires Handshake(s) && Bounds(s) && s.pc != Idle && Subsequence(Alive(s), s.log.received)
    ensures Subsequence(Alive(ThreadStep(s)), ThreadStep(s).log.received)
  {
    hide Subsequence;
    if s.pc == RecvReturn || s.pc == NotifyReturn {
      hide Handshake, Bounds;
      var d, rest := s.log.delivered, s.filled + s.ring;
      assert Alive(s) == d + s.hand + rest;
      if s.cb {
        assert Alive(ThreadStep(s)) == d + s.hand + rest;
      } else {
        assert Alive(ThreadStep(s)) == d + rest;
        WithoutMiddle(d, s.hand, rest);
        SubsequenceOf(d + rest, Alive(s), s.log.received);
      }
    } else {
      ThreadKeepsInFlight(s);
    }
  }

  lemma StepKeepsOrder(s: State, step: Step)
    requires Inv(s) && Enabled(s, step) && Subsequence(Alive(s), s.log.received)
    ensures Subsequence(Alive(Next(s, step)), Next(s, step).log.received)
  {
    hide Subsequence, Conserves;
    match step
    case RxReady(chunk, ok) =>
      if s.published && |s.filled| < s.len {
        FillKeepsOrder(s, chunk, ok);
      } else {
        StoreKeepsOrder(s, chunk, ok);
      }
    case RxTimeout(ok) =>
      var t := s.(timer := false, len := 0);
      assert !Duplicated(s) && Alive(t) == Alive(s);
      ScheduleShrinks(t, ok);
      SubsequenceOf(Alive(Schedule(t, ok)), Alive(s), s.log.received);
    case Thread => ThreadKeepsOrder(s);
    case NotifyStart =>
      assert s.hand == [];
      assert InFlight(Next(s, step)) == InFlight(s);
    case _ =>
  }

  lemma {:induction false} RunKeepsOrder(s: State, steps: seq<Step>)
    requires Inv(s) && IsRun(s, steps) && Subsequence(Alive(s), s.log.received)
    ensures Subsequence(Alive(After(s, steps)), After(s, steps).log.received)
    decreases |steps|
  {
    hide Inv, Subsequence;
    if steps != [] {
      StepKeepsInv(s, steps[0]);
      StepKeepsOrder(s, steps[0]);
      RunKeepsOrder(Next(s, steps[0]), steps[1..]);
    }
  }

  /**
    In every interleaving of interrupts, timeouts, notifications and receive calls: the bytes
    delivered, then those in the user's buffer, then those in the ring are the bytes received, in
    order, exactly if no step lost any; otherwise they are those in order without the bytes lost,
    every one of which is counted. The semaphore is 0 exactly
    while a reception is outstanding, and there is at most one notification, which has a buffer.
   */
  lemma ReceivedInOrder(capacity: nat, steps: seq<Step>) returns (t: State)
    requires IsRun(Init(capacity), steps)
    ensures t == After(Init(capacity), steps)
    ensures t.log.delivered + InFlight(t) == t.log.received <==> LosesNothing(Init(capacity), steps)
    ensures Subsequence(t.log.delivered + InFlight(t), t.log.received)
    ensures |t.log.delivered| + |InFlight(t)| + t.log.discarded == |t.log.received|
    ensures t.sem == 0 <==> Outstanding(t)
    ensures t.notifies <= 1 && (t.notifies == 1 ==> t.published && t.len == 0)
    ensures t.timer ==> t.published && |t.filled| < t.len
  {
    InitHolds(capacity);
    RunKeepsInv(Init(capacity), steps);
    DiscardedIff(Init(capacity), steps);
    SameIsSubsequence<byte>([]);
    RunKeepsOrder(Init(capacity), steps);
    t := After(Init(capacity), steps);
    hide InFlight, LosesNothing;
    assert |t.log.delivered + InFlight(t)| == |t.log.delivered| + |InFlight(t)|;
  }

  // ---------- When a partly filled reception ends by itself ----------

  predicate NoInterrupt(steps: seq<Step>) {
    forall i :: 0 <= i < |steps| ==> !steps[i].RxReady?
  }

  /** The reception waits for the interrupt, and for nothing else. */
  predicate WaitsForInterrupt(s: State) {
    s.published && s.len > 0 && !s.timer && s.notifies == 0 && s.pc == Idle && s.sem == 0
  }

  lemma {:induction false} WaitsOn(s: State, steps: seq<Step>)
    requires WaitsForInterrupt(s) && IsRun(s, steps) && NoInterrupt(steps)
    ensures WaitsForInterrupt(After(s, steps)) && After(s, steps).filled == s.filled
    decreases |steps|
  {
    if steps != [] {
      assert !steps[0].RxReady?;
      WaitsOn(Next(s, steps[0]), steps[1..]);
    }
  }

  lemma Prepend(s: State, step: Step, rest: seq<Step>) returns (steps: seq<Step>)
    requires Enabled(s, step) && IsRun(Next(s, step), rest) && NoInterrupt(rest) && !step.RxReady?
    ensures IsRun(s, steps) && NoInterrupt(steps) && After(s, steps) == After(Next(s, step), rest)
  {
    steps := [step] + rest;
    assert steps[1..] == rest;
  }

  /** How many statements of uart_rx_notify are left until the semaphore is given. */
  function UntilGive(pc: Pc): nat {
    match pc
    case NotifyClear => 5
    case NotifyOffset => 4
    case NotifyBuf => 3
    case NotifyStop => 2
    case NotifyGive => 1
    case _ => 0
  }

  lemma {:induction false} NotifyGivesBack(s: State) returns (steps: seq<Step>)
    requires UntilGive(s.pc) > 0
    ensures IsRun(s, steps) && NoInterrupt(steps) && After(s, steps).sem == 1
    ensures After(s, steps).pc == NotifyReturn && After(s, steps).hand == s.hand
    decreases UntilGive(s.pc)
  {
    var t := ThreadStep(s);
    steps := [];
    if UntilGive(s.pc) > 1 {
      steps := NotifyGivesBack(t);
    }
    steps := Prepend(s, Thread, steps);
  }

  /** The timer expires, and its notification gives the semaphore back and passes the bytes on next. */
  lemma EndsByTimeout(s: State) returns (steps: seq<Step>)
    requires s.timer && s.published && s.pc == Idle
    ensures IsRun(s, steps) && NoInterrupt(steps) && After(s, steps).sem == 1
    ensures After(s, steps).pc == NotifyReturn && After(s, steps).hand == s.filled
  {
    var t := UartRxTimeout(s, true);
    steps := NotifyGivesBack(Next(t, NotifyStart));
    hide IsRun, After;
    steps := Prepend(t, NotifyStart, steps);
    steps := Prepend(s, RxTimeout(true), steps);
  }

  ghost predicate CanEndByItself(s: State) {
    exists steps :: IsRun(s, steps) && NoInterrupt(steps) && After(s, steps).sem == 1
  }

  /**
    A reception that waits, however much of its buffer is filled, can end without another RX
    interrupt exactly if there was one since its buffer was published.
   */
  lemma PartialReceptionEndsIff(s: State)
    requires Inv(s) && s.published && s.len > 0
    ensures CanEndByItself(s) <==> s.log.fed
  {
    assert s.pc == Idle && s.notifies == 0 && s.sem == 0;
    if s.log.fed {
      var steps := EndsByTimeout(s);
      assert IsRun(s, steps);
    } else {
      forall steps | IsRun(s, steps) && NoInterrupt(steps) ensures After(s, steps).sem != 1 {
        WaitsOn(s, steps);
      }
    }
  }

  lemma {:induction false} RunAppend(s: State, steps: seq<Step>, step: Step)
    requires IsRun(s, steps) && Enabled(After(s, steps), step)
    ensures IsRun(s, steps + [step]) && After(s, steps + [step]) == Next(After(s, steps), step)
    decreases |steps|
  {
    if steps == [] {
      assert [step][1..] == [];
    } else {
      assert (steps + [step])[1..] == steps[1..] + [step];
      RunAppend(Next(s, steps[0]), steps[1..], step);
    }
  }

  lemma Extend(capacity: nat, run: seq<Step>, step: Step) returns (steps: seq<Step>)
    requires IsRun(Init(capacity), run) && Enabled(After(Init(capacity), run), step)
    ensures steps == run + [step] && IsRun(Init(capacity), steps)
    ensures After(Init(capacity), steps) == Next(After(Init(capacity), run), step)
  {
    steps := run + [step];
    RunAppend(Init(capacity), run, step);
  }

  lemma ByteInRing(capacity: nat, b: byte) returns (steps: seq<Step>)
    requires capacity > 0
    ensures IsRun(Init(capacity), steps)
    ensures After(Init(capacity), steps)
         == State(capacity, [b], false, [], 0, 1, false, 0, true, true, Idle, [], 0, Log([b], [], 0, true))
  {
    steps := [];
    steps := Extend(capacity, steps, SetCb(true));
    steps := Extend(capacity, steps, RxReady([b], true));
  }

  lemma {:induction false} RunConcat(capacity: nat, run: seq<Step>, more: seq<Step>) returns (steps: seq<Step>)
    requires IsRun(Init(capacity), run) && IsRun(After(Init(capacity), run), more)
    ensures steps == run + more && IsRun(Init(capacity), steps)
    ensures After(Init(capacity), steps) == After(After(Init(capacity), run), more)
    decreases |more|
  {
    hide Next, Enabled;
    if more == [] {
      steps := run;
      assert run + more == run;
    } else {
      steps := Extend(capacity, run, more[0]);
      steps := RunConcat(capacity, steps, more[1..]);
      assert run + more == run + [more[0]] + more[1..];
    }
  }

  /** How many statements the thread has left. */
  function StatementsLeft(pc: Pc): nat {
    match pc
    case Idle => 0
    case RecvMask(_) => 7
    case RecvFlush(_) => 6
    case RecvUnmask(_) => 5
    case RecvDecide(_) => 4
    case RecvReset(_) => 3
    case RecvGive => 2
    case RecvReturn => 1
    case RecvSetLen(_) => 2
    case RecvSetBuf(_) => 1
    case NotifyClear => 6
    case NotifyOffset => 5
    case NotifyBuf => 4
    case NotifyStop => 3
    case NotifyGive => 2
    case NotifyReturn => 1
  }

  /** The thread runs to the end of its function, undisturbed. */
  function UntilIdle(s: State): State
    decreases StatementsLeft(s.pc)
  {
    if s.pc == Idle then s else UntilIdle(ThreadStep(s))
  }

  lemma {:induction false} UntilIdleIsRun(s: State) returns (steps: seq<Step>)
    ensures IsRun(s, steps) && NoInterrupt(steps) && After(s, steps) == UntilIdle(s)
    decreases StatementsLeft(s.pc)
  {
    steps := [];
    if s.pc != Idle {
      steps := UntilIdleIsRun(ThreadStep(s));
      steps := Prepend(s, Thread, steps);
    }
  }

  lemma CallDecides(s: State)
    requires s.pc.RecvMask?
    ensures UntilIdle(s) == UntilIdle(Decided(s, s.pc.want))
  {
    var s1 := ThreadStep(s);
    var s2 := ThreadStep(s1);
    var s3 := ThreadStep(s2);
    assert UntilIdle(s) == UntilIdle(s1) == UntilIdle(s2) == UntilIdle(s3);
    assert ThreadStep(s3) == Decided(s, s.pc.want);
  }

  /** After the ring was emptied into the buffer and the offset compared with the length. */
  function Decided(s: State, want: nat): State {
    var n := Min(|s.ring|, want);
    s.(irq := true, filled := s.ring[..n], ring := s.ring[n..], room := want,
       pc := if n == want then RecvReset(want) else RecvSetLen(want))
  }

  lemma CallWaits(s: State)
    requires s.pc.RecvSetLen?
    ensures UntilIdle(s) == s.(len := s.pc.want, published := true, pc := Idle, log := s.log.(fed := false))
  {
    var t := ThreadStep(s);
    assert UntilIdle(s) == UntilIdle(t) == UntilIdle(ThreadStep(t));
  }

  lemma CallHandsOver(s: State)
    requires s.pc.RecvReset?
    ensures !UntilIdle(s).published <==> !s.published
    ensures UntilIdle(s).pc == Idle && UntilIdle(s).filled == [] && UntilIdle(s).sem == 1
    ensures s.cb ==> UntilIdle(s).log.delivered == s.log.delivered + s.filled
    ensures UntilIdle(s).ring == s.ring
  {
    var s1 := ThreadStep(s);
    var s2 := ThreadStep(s1);
    var s3 := ThreadStep(s2);
    assert UntilIdle(s) == UntilIdle(s1) == UntilIdle(s2) == UntilIdle(s3);
  }

  /** What a notification that no interrupt disturbs leaves of any state: the bytes are passed on. */
  lemma UndisturbedNotify(s: State)
    requires s.pc == Idle && s.notifies > 0
    ensures UntilIdle(Next(s, NotifyStart))
         == s.(notifies := s.notifies - 1, published := false, filled := [], len := 0, timer := false, sem := 1,
               hand := [],
               log := if s.cb then s.log.Deliver(s.filled) else s.log.Discard(|s.filled|))
  {
    var s1 := Next(s, NotifyStart);
    var s2 := ThreadStep(s1);
    var s3 := ThreadStep(s2);
    var s4 := ThreadStep(s3);
    assert UntilIdle(s1) == UntilIdle(s2) == UntilIdle(s3) == UntilIdle(s4);
    NotifyReleases(s4);
    hide UntilIdle;
  }

  lemma NotifyReleases(s: State)
    requires s.pc == NotifyStop
    ensures UntilIdle(s)
         == s.(timer := false, sem := 1, hand := [], pc := Idle,
               log := if s.cb then s.log.Deliver(s.hand) else s.log.Discard(|s.hand|))
  {
    var s1 := ThreadStep(s);
    var s2 := ThreadStep(s1);
    assert UntilIdle(s) == UntilIdle(s1) == UntilIdle(s2) == UntilIdle(ThreadStep(s2));
  }

  /**
    A receive call that is granted, and that no interrupt disturbs, ends with bytes in its buffer
    and nothing but another RX interrupt to end the reception, exactly when the ring held some but
    not all of the bytes that it asked for.
   */
  lemma UndisturbedCallWaitsIff(s: State, want: nat)
    requires Inv(s) && s.pc == Idle && s.cb && want > 0 && s.sem == 1
    ensures UntilIdle(Next(s, RecvCall(want))).pc == Idle
    ensures UntilIdle(Next(s, RecvCall(want))).published && UntilIdle(Next(s, RecvCall(want))).filled != []
       <==> 0 < |s.ring| < want
    ensures |s.ring| >= want ==> UntilIdle(Next(s, RecvCall(want))).sem == 1
    ensures |s.ring| >= want ==>
              UntilIdle(Next(s, RecvCall(want))).log.delivered == s.log.delivered + s.ring[..want]
              && UntilIdle(Next(s, RecvCall(want))).ring == s.ring[want..]
    ensures |s.ring| < want ==> WaitsForInterrupt(UntilIdle(Next(s, RecvCall(want))))
    ensures |s.ring| < want ==> UntilIdle(Next(s, RecvCall(want))).filled == s.ring
    ensures |s.ring| < want ==> !CanEndByItself(UntilIdle(Next(s, RecvCall(want))))
  {
    var call := Next(s, RecvCall(want));
    var decided := Decided(call, want);
    CallDecides(call);
    assert !s.published && !s.timer && s.notifies == 0;
    StepKeepsInv(s, RecvCall(want));
    UntilIdleKeepsInv(call);
    hide Inv, UntilIdle, CanEndByItself;
    if |s.ring| < want {
      CallWaits(decided);
      PartialReceptionEndsIff(UntilIdle(call));
    } else {
      CallHandsOver(decided);
    }
  }

  lemma {:induction false} UntilIdleKeepsInv(s: State)
    requires Inv(s)
    ensures Inv(UntilIdle(s))
    decreases StatementsLeft(s.pc)
  {
    hide Inv;
    if s.pc != Idle {
      StepKeepsInv(s, Thread);
      UntilIdleKeepsInv(ThreadStep(s));
    }
  }

  /** A run to such a reception: the ring held a byte, but not all that the call asked for. */
  lemma PartialReceptionWaits(capacity: nat, b: byte, want: nat) returns (steps: seq<Step>)
    requires capacity > 0 && want > 1
    ensures IsRun(Init(capacity), steps)
    ensures WaitsForInterrupt(After(Init(capacity), steps)) && After(Init(capacity), steps).filled == [b]
    ensures !CanEndByItself(After(Init(capacity), steps))
  {
    steps := ByteInRing(capacity, b);
    var s := After(Init(capacity), steps);
    InitHolds(capacity);
    RunKeepsInv(Init(capacity), steps);
    UndisturbedCallWaitsIff(s, want);
    hide Inv, UntilIdle, CanEndByItself;
    steps := Extend(capacity, steps, RecvCall(want));
    var more := UntilIdleIsRun(Next(s, RecvCall(want)));
    hide Next, IsRun, After;
    steps := RunConcat(capacity, steps, more);
  }

  // ---------- The handlers themselves, on the user's array ----------

  lemma InvGivesRoom(s: State)
    requires Inv(s)
    ensures |s.ring| <= s.capacity && (s.published && s.len > 0 ==> s.len == s.room && s.hand == [])
  {
  }

  class AsyncReceiver {
    const capacity: nat
    var ring: seq<byte>
    var rxBuf: array?<byte>
    var offset: nat
    var len: nat
    var sem: nat
    var timer: bool
    var notifies: nat
    var irq: bool
    var cb: bool
    /** The buffer that the last granted receive call was given. */
    var user: array<byte>
    // The thread and the history.
    var room: nat
    var pc: Pc
    var hand: seq<byte>
    ghost var log: Log

    ghost function Abs(): State
      reads this, user
      requires offset <= user.Length
    {
      State(capacity, ring, rxBuf != null, user[..offset], len, sem, timer, notifies, irq, cb, pc, hand, room, log)
    }

    ghost predicate Valid()
      reads this, user
    {
      && offset <= user.Length && room <= user.Length && (rxBuf != null ==> rxBuf == user)
      && HandIsInBuffer()
      && Inv(Abs())
    }

    /** What the thread is about to pass to rx_data_cb is at the start of the user's buffer. */
    ghost predicate HandIsInBuffer()
      reads this, user
    {
      |hand| <= user.Length && user[..|hand|] == hand
    }

    constructor (capacity: nat)
      ensures Valid() && Abs() == Init(capacity)
    {
      this.capacity, ring, rxBuf, offset, len, sem := capacity, [], null, 0, 0, 1;
      timer, notifies, irq, cb, user, room := false, 0, true, false, new byte[0], 0;
      pc, hand, log := Idle, [], Log([], [], 0, false);
    }

    /** Copies `bytes` to the offset in the user's buffer and moves the offset behind them. */
    method Store(bytes: seq<byte>)
      requires offset + |bytes| <= user.Length
      modifies this`offset, user
      ensures offset == old(offset) + |bytes|
      ensures user[..offset] == old(user[..offset]) + bytes
    {
      forall i | 0 <= i < |bytes| {
        user[offset + i] := bytes[i];
      }
      offset := offset + |bytes|;
      assert user[..offset] == old(user[..offset]) + bytes;
    }

    /** `fifo` are the bytes that the UART holds; the handler reads all that there is room for. */
    method HandleRxReadyEvt(fifo: seq<byte>, ok: bool) returns (ghost chunk: seq<byte>)
      requires Valid() && irq
      modifies this, user
      ensures chunk == if old(rxBuf != null && offset < len)
                       then fifo[..Min(|fifo|, old(len - offset) - Min(old(|ring|), old(len - offset)))]
                       else fifo[..Min(|fifo|, capacity)]
      ensures Valid() && user == old(user)
      ensures Abs() == HandleRxReady(old(Abs()), chunk, ok)
    {
      hide Inv, InFlight;
      ghost var before := Abs();
      InvGivesRoom(before);
      if rxBuf != null && offset < len {
        chunk := FillUserBuffer(fifo, ok);
      } else {
        chunk := StoreInRing(fifo, ok);
      }
      StepKeepsInv(before, RxReady(chunk, ok));
    }

    method FillUserBuffer(fifo: seq<byte>, ok: bool) returns (ghost chunk: seq<byte>)
      requires |ring| <= capacity && rxBuf == user && offset < len <= user.Length
      modifies this, user
      ensures chunk == fifo[..Min(|fifo|, old(len - offset) - Min(old(|ring|), old(len - offset)))]
      ensures user == old(user) && offset <= user.Length && room == old(room) && (rxBuf != null ==> rxBuf == user)
      ensures Abs() == HandleRxReady(old(Abs()), chunk, ok)
    {
      hide CompleteOrWait;
      ghost var before := Abs();
      var n := Min(|ring|, len - offset);
      Store(ring[..n]);
      ring := ring[n..];
      var recv := fifo[..Min(|fifo|, len - offset)];
      Store(recv);
      chunk, log := recv, log.Receive(recv);
      assert Abs() == before.(log := log, ring := before.ring[n..], filled := before.filled + before.ring[..n] + chunk);
      CompleteFill(ok);
    }

    method CompleteFill(ok: bool)
      requires offset <= user.Length
      modifies this`len, this`timer, this`notifies, this`log, this`offset, this`rxBuf, this`sem
      ensures offset <= user.Length && (rxBuf == null || rxBuf == old(rxBuf))
      ensures Abs() == CompleteOrWait(old(Abs()), ok)
    {
      if offset == len {
        len, timer := 0, false;
        ScheduleNotify(ok);
      } else {
        timer := true;
      }
    }

    method StoreInRing(fifo: seq<byte>, ghost ok: bool) returns (ghost chunk: seq<byte>)
      requires |ring| <= capacity && offset <= user.Length && !(rxBuf != null && offset < len)
      modifies this`ring, this`log
      ensures chunk == fifo[..Min(|fifo|, capacity)]
      ensures Abs() == HandleRxReady(old(Abs()), chunk, ok)
    {
      var buffer := fifo[..Min(|fifo|, capacity)];
      var recvLen := |buffer|;
      chunk, log := buffer, log.Receive(buffer);
      if recvLen > capacity - |ring| {
        var drop := Min(|ring|, recvLen - (capacity - |ring|));
        ring, log := ring[drop..], log.Discard(drop);
      }
      ring := ring + buffer;
    }

    method ScheduleNotify(ok: bool)
      requires offset <= user.Length
      modifies this`notifies, this`log, this`offset, this`rxBuf, this`sem
      ensures offset <= user.Length && Abs() == Schedule(old(Abs()), ok)
      ensures rxBuf == null || rxBuf == old(rxBuf)
    {
      if ok {
        notifies := notifies + 1;
      } else {
        log := log.Discard(offset);
        offset := 0;
        rxBuf := null;
        sem := 1;
      }
    }

    method UartRxTimeoutExpired(ok: bool)
      requires Valid() && timer
      modifies this
      ensures Valid() && user == old(user)
      ensures Abs() == UartRxTimeout(old(Abs()), ok)
    {
      hide Inv, InFlight;
      ghost var before := Abs();
      timer := false;
      if rxBuf != null {
        len := 0;
        ScheduleNotify(ok);
      }
      StepKeepsInv(before, RxTimeout(ok));
    }

    /** The interrupt and the timer, as often as they like. */
    method Interrupts()
      requires Valid()
      modifies this, user
      ensures Valid() && user == old(user) && pc == old(pc) && hand == old(hand)
      ensures cb == old(cb) && room == old(room)
      ensures log.delivered == old(log.delivered) && old(log.received) <= log.received
      ensures old(log.discarded) <= log.discarded
    {
      var events: seq<(seq<byte>, bool, bool)> := *;
      for i := 0 to |events|
        invariant Valid() && user == old(user) && pc == old(pc) && hand == old(hand)
        invariant cb == old(cb) && room == old(room)
        invariant log.delivered == old(log.delivered) && old(log.received) <= log.received
        invariant old(log.discarded) <= log.discarded
      {
        var (fifo, isTimer, ok) := events[i];
        Interrupt(fifo, isTimer, ok);
      }
    }

    method Interrupt(fifo: seq<byte>, isTimer: bool, ok: bool)
      requires Valid()
      modifies this, user
      ensures Valid() && user == old(user) && pc == old(pc) && hand == old(hand)
      ensures cb == old(cb) && room == old(room)
      ensures log.delivered == old(log.delivered) && old(log.received) <= log.received
      ensures old(log.discarded) <= log.discarded
    {
      hide Inv, InFlight, HandleRxReady, UartRxTimeout;
      ghost var before := Abs();
      InvGivesRoom(before);
      if isTimer {
        if timer {
          UartRxTimeoutExpired(ok);
          HandlersLeave(before, [], ok);
        }
      } else if irq {
        ghost var chunk := HandleRxReadyEvt(fifo, ok);
        HandlersLeave(before, chunk, ok);
      }
    }

    // ---------- uart_rx_notify ----------

    /**
      The callback that the handlers schedule, with interrupts between its statements. rx_data_cb
      gets the bytes that the buffer held when the callback began, and finds them there.
     */
    method UartRxNotify() returns (bytes: seq<byte>)
      requires Valid() && pc == Idle && notifies > 0
      modifies this, user
      ensures Valid() && pc == Idle && user == old(user) && cb == old(cb)
      ensures bytes == old(user[..offset]) && |bytes| <= user.Length && user[..|bytes|] == bytes
      ensures log.delivered == old(log.delivered) + if cb then bytes else []
      ensures old(log.received) <= log.received
    {
      hide Inv, InFlight, ThreadStep, Next, Abs, Valid, HandIsInBuffer;
      NotifyRead();
      Interrupts();
      NotifyClearLength();
      Interrupts();
      NotifyClearOffset();
      Interrupts();
      bytes := hand;
      NotifyRelease();
    }

    /** The second half. */
    method NotifyRelease()
      requires Valid() && pc == NotifyBuf
      modifies this, user
      ensures Valid() && pc == Idle && user == old(user) && cb == old(cb)
      ensures old(|hand|) <= user.Length && user[..old(|hand|)] == old(hand)
      ensures log.delivered == old(log.delivered) + (if cb then old(hand) else []) && old(log.received) <= log.received
    {
      hide Inv, InFlight, ThreadStep, Next, Abs, Valid, HandIsInBuffer;
      NotifyClearBuffer();
      Interrupts();
      NotifyStopTimer();
      Interrupts();
      NotifyGiveSem();
      Interrupts();
      CallBack();
    }

    /** The first statement reads the buffer and the offset; there is a buffer. */
    method NotifyRead()
      requires Valid() && pc == Idle && notifies > 0
      modifies this`notifies, this`hand, this`pc
      ensures Valid() && Abs() == Next(old(Abs()), NotifyStart) && rxBuf == user
      ensures pc == NotifyClear && hand == user[..offset]
    {
      hide Inv, InFlight;
      ghost var before := Abs();
      StepKeepsInv(before, NotifyStart);
      NotifyHasBuffer(before);
      notifies, hand, pc := notifies - 1, user[..offset], NotifyClear;
      assert Abs() == Next(before, NotifyStart);
    }

    method NotifyClearLength()
      requires Valid() && pc.NotifyClear?
      modifies this`len, this`pc
      ensures Valid() && Abs() == ThreadStep(old(Abs())) && pc == NotifyOffset
    {
      hide Inv, InFlight;
      ghost var before := Abs();
      ThreadKeepsInv(before);
      len, pc := 0, NotifyOffset;
      assert Abs() == ThreadStep(before);
    }

    method NotifyClearOffset()
      requires Valid() && pc.NotifyOffset?
      modifies this`offset, this`pc
      ensures Valid() && Abs() == ThreadStep(old(Abs())) && pc == NotifyBuf
    {
      hide Inv, InFlight;
      ghost var before := Abs();
      ThreadKeepsInv(before);
      offset, pc := 0, NotifyBuf;
      assert Abs() == ThreadStep(before);
    }

    method NotifyClearBuffer()
      requires Valid() && pc.NotifyBuf?
      modifies this`rxBuf, this`pc
      ensures Valid() && Abs() == ThreadStep(old(Abs())) && pc == NotifyStop
    {
      hide Inv, InFlight;
      ghost var before := Abs();
      ThreadKeepsInv(before);
      rxBuf, pc := null, NotifyStop;
      assert Abs() == ThreadStep(before);
    }

    method NotifyStopTimer()
      requires Valid() && pc.NotifyStop?
      modifies this`timer, this`pc
      ensures Valid() && Abs() == ThreadStep(old(Abs())) && pc == NotifyGive
    {
      hide Inv, InFlight;
      ghost var before := Abs();
      ThreadKeepsInv(before);
      timer, pc := false, NotifyGive;
      assert Abs() == ThreadStep(before);
    }

    method NotifyGiveSem()
      requires Valid() && pc.NotifyGive?
      modifies this`sem, this`pc
      ensures Valid() && Abs() == ThreadStep(old(Abs())) && pc == NotifyReturn
    {
      hide Inv, InFlight;
      ghost var before := Abs();
      ThreadKeepsInv(before);
      sem, pc := 1, NotifyReturn;
      assert Abs() == ThreadStep(before);
    }

    /** rx_data_cb, if there is one, at the end of either function. */
    method CallBack()
      requires Valid() && (pc.RecvReturn? || pc.NotifyReturn?)
      modifies this`log, this`hand, this`pc
      ensures Valid() && Abs() == ThreadStep(old(Abs())) && pc == Idle
      ensures old(|hand|) <= user.Length && user[..old(|hand|)] == old(hand)
      ensures log.delivered == old(log.delivered) + (if cb then old(hand) else []) && log.received == old(log.received)
    {
      hide Inv, InFlight;
      ghost var before := Abs();
      ThreadKeepsInv(before);
      assert ThreadStep(before) == Deliver(before);
      hide ThreadStep;
      log := if cb then log.Deliver(hand) else log.Discard(|hand|);
      hand, pc := [], Idle;
      assert Abs() == Deliver(before);
    }

    // ---------- zb_osif_serial_recv_data ----------

    /**
      Asks for `want` bytes, with interrupts between the statements. Without a callback nothing
      happens; without a UART that is `ready`, there and awake, for no bytes, and when the semaphore
      was not there in time, rx_data_cb gets NULL. Otherwise it gets the whole buffer at once, or
      the handlers get the buffer, with room left in it.
     */
    method RecvData(want: nat, buf: array<byte>, ready: bool) returns (reply: RecvReply)
      requires Valid() && pc == Idle && want <= buf.Length
      modifies this, buf, user
      ensures Valid() && pc == Idle && cb == old(cb)
      ensures (reply == Ignored <==> !cb) && (reply == Refused <==> cb && (!ready || want == 0 || old(sem) == 0))
      ensures reply == Ignored || reply == Refused ==> user == old(user) && Abs() == old(Abs())
      ensures reply == Delivered ==> log.delivered == old(log.delivered) + buf[..want]
      ensures reply == Awaiting ==>
                log.delivered == old(log.delivered) && rxBuf == buf && offset < len == want && sem == 0
    {
      hide Inv, InFlight, ThreadStep, Next, Abs, Valid, HandIsInBuffer;
      reply := TakeSemaphore(want, ready);
      if reply == Ignored || reply == Refused {
        return;
      }
      Interrupts();
      ReceiveFromRing(want, buf);
      Interrupts();
      if pc.RecvReset? {
        HandOver(want);
        return Delivered;
      }
      RecvSetLength();
      Interrupts();
      RecvPublish();
    }

    /** Moves what the ring holds to the buffer, with the RX interrupt off, and looks whether that was all. */
    method ReceiveFromRing(want: nat, buf: array<byte>)
      requires Valid() && pc == RecvMask(want) && want <= buf.Length
      modifies this, buf, user
      ensures Valid() && user == buf && (pc == RecvReset(want) || pc == RecvSetLen(want))
      ensures cb == old(cb) && log.delivered == old(log.delivered)
    {
      hide Inv, InFlight, ThreadStep, Next, Abs, Valid, HandIsInBuffer;
      MaskInterrupt();
      Interrupts();
      FlushRing(buf);
      Interrupts();
      UnmaskInterrupt();
      Interrupts();
      Decide();
    }

    /** All the bytes were there. */
    method HandOver(want: nat)
      requires Valid() && pc == RecvReset(want)
      modifies this, user
      ensures Valid() && pc == Idle && user == old(user) && cb == old(cb) && want <= user.Length
      ensures log.delivered == old(log.delivered) + if cb then user[..want] else []
    {
      hide Inv, InFlight, ThreadStep, Next, Abs, Valid, HandIsInBuffer;
      ResetOffset();
      Interrupts();
      RecvGiveSem();
      Interrupts();
      CallBack();
    }

    /** The checks, and k_sem_take. */
    method TakeSemaphore(want: nat, ready: bool) returns (reply: RecvReply)
      requires Valid() && pc == Idle
      modifies this`sem, this`pc
      ensures Valid() && Abs() == if ready then Next(old(Abs()), RecvCall(want)) else old(Abs())
      ensures reply == if !cb then Ignored else if !ready || want == 0 || old(sem) == 0 then Refused else Awaiting
      ensures reply == Awaiting ==> pc == RecvMask(want)
      ensures reply != Awaiting ==> pc == Idle && Abs() == old(Abs())
    {
      hide Inv, InFlight;
      ghost var before := Abs();
      StepKeepsInv(before, RecvCall(want));
      if !cb {
        return Ignored;
      }
      if !ready || want == 0 {
        return Refused;
      }
      if sem == 0 {
        return Refused;
      }
      sem, pc := 0, RecvMask(want);
      assert Abs() == Next(before, RecvCall(want));
      return Awaiting;
    }

    method MaskInterrupt()
      requires Valid() && pc.RecvMask?
      modifies this`irq, this`pc
      ensures Valid() && Abs() == ThreadStep(old(Abs())) && pc == RecvFlush(old(pc.want))
    {
      hide Inv, InFlight;
      ghost var before := Abs();
      ThreadKeepsInv(before);
      irq, pc := false, RecvFlush(pc.want);
      assert Abs() == ThreadStep(before);
    }

    /** ring_buf_get, with the RX interrupt off. */
    method FlushRing(buf: array<byte>)
      requires Valid() && pc.RecvFlush? && pc.want <= buf.Length
      modifies this, buf
      ensures Valid() && Abs() == ThreadStep(old(Abs())) && user == buf && pc == RecvUnmask(old(pc.want))
      ensures cb == old(cb) && log == old(log)
    {
      hide Inv, InFlight;
      ghost var before := Abs();
      ThreadKeepsInv(before);
      FlushFindsNoBuffer(before);
      var n := Min(|ring|, pc.want);
      user, offset, room := buf, 0, pc.want;
      Store(ring[..n]);
      ring, pc := ring[n..], RecvUnmask(pc.want);
      assert Abs() == ThreadStep(before);
    }

    method UnmaskInterrupt()
      requires Valid() && pc.RecvUnmask?
      modifies this`irq, this`pc
      ensures Valid() && Abs() == ThreadStep(old(Abs())) && pc == RecvDecide(old(pc.want))
    {
      hide Inv, InFlight;
      ghost var before := Abs();
      ThreadKeepsInv(before);
      irq, pc := true, RecvDecide(pc.want);
      assert Abs() == ThreadStep(before);
    }

    method Decide()
      requires Valid() && pc.RecvDecide?
      modifies this`pc
      ensures Valid() && Abs() == ThreadStep(old(Abs()))
      ensures pc == if offset == old(pc.want) then RecvReset(old(pc.want)) else RecvSetLen(old(pc.want))
    {
      hide Inv, InFlight;
      ghost var before := Abs();
      ThreadKeepsInv(before);
      pc := if offset == pc.want then RecvReset(pc.want) else RecvSetLen(pc.want);
      assert Abs() == ThreadStep(before);
    }

    method ResetOffset()
      requires Valid() && pc.RecvReset?
      modifies this`hand, this`offset, this`pc
      ensures Valid() && Abs() == ThreadStep(old(Abs())) && pc == RecvGive && |hand| == old(pc.want)
    {
      hide Inv, InFlight;
      ghost var before := Abs();
      ThreadKeepsInv(before);
      ResetIsFull(before);
      hand, offset, pc := user[..offset], 0, RecvGive;
      assert Abs() == ThreadStep(before);
    }

    method RecvGiveSem()
      requires Valid() && pc.RecvGive?
      modifies this`sem, this`pc
      ensures Valid() && Abs() == ThreadStep(old(Abs())) && pc == RecvReturn
    {
      hide Inv, InFlight;
      ghost var before := Abs();
      ThreadKeepsInv(before);
      sem, pc := 1, RecvReturn;
      assert Abs() == ThreadStep(before);
    }

    method RecvSetLength()
      requires Valid() && pc.RecvSetLen?
      modifies this`len, this`pc
      ensures Valid() && Abs() == ThreadStep(old(Abs())) && pc == RecvSetBuf(old(pc.want))
    {
      hide Inv, InFlight;
      ghost var before := Abs();
      ThreadKeepsInv(before);
      len, pc := pc.want, RecvSetBuf(pc.want);
      assert Abs() == ThreadStep(before);
    }

    method RecvPublish()
      requires Valid() && pc.RecvSetBuf?
      modifies this`rxBuf, this`pc, this`log
      ensures Valid() && Abs() == ThreadStep(old(Abs())) && pc == Idle
      ensures rxBuf == user && offset < len == old(pc.want) && sem == 0
      ensures log.delivered == old(log.delivered) && log.received == old(log.received)
    {
      hide Inv, InFlight;
      ghost var before := Abs();
      ThreadKeepsInv(before);
      PublishedHasRoom(before);
      rxBuf, pc, log := user, Idle, log.(fed := false);
      assert Abs() == ThreadStep(before);
    }
  }

  datatype RecvReply = Ignored | Refused | Delivered | Awaiting

  /** What the handlers do not touch. */
  lemma HandlersLeave(s: State, chunk: seq<byte>, ok: bool)
    requires |s.ring| <= s.capacity
    ensures HandleRxReady(s, chunk, ok).pc == s.pc && HandleRxReady(s, chunk, ok).hand == s.hand
    ensures HandleRxReady(s, chunk, ok).cb == s.cb && HandleRxReady(s, chunk, ok).room == s.room
    ensures HandleRxReady(s, chunk, ok).log.delivered == s.log.delivered
    ensures s.log.received <= HandleRxReady(s, chunk, ok).log.received
    ensures s.log.discarded <= HandleRxReady(s, chunk, ok).log.discarded
    ensures UartRxTimeout(s, ok).pc == s.pc && UartRxTimeout(s, ok).hand == s.hand
    ensures UartRxTimeout(s, ok).cb == s.cb && UartRxTimeout(s, ok).room == s.room
    ensures UartRxTimeout(s, ok).log.delivered == s.log.delivered
    ensures UartRxTimeout(s, ok).log.received == s.log.received
    ensures s.log.discarded <= UartRxTimeout(s, ok).log.discarded
  {
  }

  lemma ResetIsFull(s: State)
    requires Inv(s) && s.pc.RecvReset?
    ensures |s.filled| == s.pc.want
  {
  }

  lemma PublishedHasRoom(s: State)
    requires Inv(s) && s.pc.RecvSetBuf?
    ensures |s.filled| < s.len == s.pc.want && s.sem == 0
  {
  }

  lemma ThreadKeepsInv(s: State)
    requires Inv(s) && s.pc != Idle
    ensures Inv(ThreadStep(s))
  {
    StepKeepsInv(s, Thread);
  }

  lemma NotifyHasBuffer(s: State)
    requires Inv(s) && s.notifies > 0
    ensures s.published
  {
  }

  lemma FlushFindsNoBuffer(s: State)
    requires Inv(s)
    ensures s.pc.RecvFlush? ==> !s.published && s.hand == []
  {
  }
}
