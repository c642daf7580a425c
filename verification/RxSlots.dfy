/**
  Received radio frames on their way from the driver interrupt to the stack thread
  (zb_nrf_transceiver.c): a table of slots, one more than the driver has buffers, and a FIFO.
 */
module RxSlots {
  import opened Basics

  /** A frame as the stack gets it. */
  datatype Frame = Frame(payload: seq<byte>, power: int, lqi: int, time: int, ackFpb: bool)

  datatype Slot = Slot(psdu: Option<nat>, power: int, lqi: int, time: int, ackFpb: bool)

  const FREE_SLOT: Slot := Slot(None, 0, 0, 0, false)

  // Where zb_trans_get_next_packet is: the slot it took from the FIFO, whether the frame was
  // copied, and whether the driver buffer was given back while the slot still names it.
  datatype Pc = Idle | Got(slot: nat) | Copied(slot: nat) | Freed(slot: nat)

  datatype State = State(
    mem: seq<seq<byte>>,   // the driver's buffers
    held: set<nat>,        // buffers handed over by the driver and not yet freed
    bufs: seq<nat>,        // the same, oldest first
    slots: seq<Slot>,
    fifo: seq<nat>,
    lastAckFpb: bool,
    up: bool,              // the driver makes its calls; until the slots are released
    pc: Pc,
    handed: seq<nat>,      // the buffer of every reception, in order
    freed: seq<nat>,       // every buffer given back, in order
    received: seq<Frame>,  // every frame the driver reported
    delivered: seq<Frame>  // every frame the stack got
  ) {
    /** The slots whose buffer is still the stack's, oldest frame first. */
    function Line(): seq<nat> {
      if pc.Got? || pc.Copied? then [pc.slot] + fifo else fifo
    }
  }

  /** The bytes behind the length byte, as many as that says. */
  function Payload(buffer: seq<byte>): seq<byte> {
    if IsPacket(buffer) then buffer[1..1 + buffer[0] as nat] else []
  }

  predicate IsPacket(buffer: seq<byte>): (r: bool)
    ensures r ==> |buffer| > ACK_REQUEST_OFFSET
  {
    |buffer| > ACK_REQUEST_OFFSET && buffer[0] as nat < |buffer|
  }

  /** The frame that the stack reads out of a slot. */
  function FrameIn(mem: seq<seq<byte>>, f: Slot): Frame
    requires f.psdu.Some? && f.psdu.value < |mem|
  {
    Frame(Payload(mem[f.psdu.value]), f.power, f.lqi, f.time, f.ackFpb)
  }

  const ACK_REQUEST_OFFSET: nat := 1
  const ACK_REQUEST_BIT: byte := 0x20

  datatype Step =
    | DriverWrites(b: nat, data: seq<byte>)
    | Received(b: nat, power: int, lqi: int, time: int)
    | AckStarted(framePending: bool)
    | ReceiveFailed
    | FifoGet
    | Copy
    | FreeBuffer
    | ClearSlot
    | Release

  function Init(mem: seq<seq<byte>>): State {
    State(mem, {}, [], seq(|mem| + 1, _ => FREE_SLOT), [], false, true, Idle, [], [], [], [])
  }

  predicate Enabled(s: State, step: Step) {
    match step
    // The driver writes and reports only buffers that it owns; a reported buffer holds a packet.
    case DriverWrites(b, data) => b < |s.mem| && b !in s.held
    case Received(b, _, _, _) => s.up && b < |s.mem| && b !in s.held && IsPacket(s.mem[b])
    case AckStarted(_) => s.up
    case ReceiveFailed => s.up
    case FifoGet => s.pc == Idle && s.fifo != []
    case Copy => s.pc.Got? && NamesBuffer(s)
    case FreeBuffer => s.pc.Copied? && NamesBuffer(s)
    case ClearSlot => s.pc.Freed? && s.pc.slot < |s.slots|
    case Release => s.up
  }

  /** The pointers that the thread follows lead to a slot and to a driver buffer. */
  predicate NamesBuffer(s: State)
    requires s.pc != Idle
  {
    s.pc.slot < |s.slots| && s.slots[s.pc.slot].psdu.Some? && s.slots[s.pc.slot].psdu.value < |s.mem|
  }

  /** The first slot without a buffer, or the number of slots. */
  function FirstFree(slots: seq<Slot>, from: nat): (i: nat)
    requires from <= |slots|
    ensures from <= i <= |slots|
    ensures i < |slots| ==> slots[i].psdu == None
    ensures forall j :: from <= j < i ==> slots[j].psdu != None
    decreases |slots| - from
  {
    if from == |slots| || slots[from].psdu == None then from else FirstFree(slots, from + 1)
  }

  /** The buffers that the slots name, in the order of the slots. */
  function Psdus(slots: seq<Slot>): seq<nat> {
    if slots == [] then []
    else
      Psdus(slots[..|slots| - 1])
      + if slots[|slots| - 1].psdu.Some? then [slots[|slots| - 1].psdu.value] else []
  }

  function ToSet(bufs: seq<nat>): set<nat> {
    set b | b in bufs
  }

  function Cleared(slots: seq<Slot>): (r: seq<Slot>)
    ensures |r| == |slots| && forall i :: 0 <= i < |r| ==> r[i] == slots[i].(psdu := None)
  {
    seq(|slots|, i requires 0 <= i < |slots| => slots[i].(psdu := None))
  }

  function AckFpb(s: State, data: seq<byte>): bool
    requires |data| > ACK_REQUEST_OFFSET
  {
    data[ACK_REQUEST_OFFSET] & ACK_REQUEST_BIT != 0 && s.lastAckFpb
  }

  function Next(s: State, step: Step): State
    requires Enabled(s, step)
  {
    match step
    case DriverWrites(b, data) => s.(mem := s.mem[b := data])
    case Received(b, power, lqi, time) =>
      var ackFpb := AckFpb(s, s.mem[b]);
      var i := FirstFree(s.slots, 0);
      var t := s.(held := s.held + {b}, bufs := s.bufs + [b], handed := s.handed + [b],
                   received := s.received + [Frame(Payload(s.mem[b]), power, lqi, time, ackFpb)]);
      if i == |s.slots| then t   // the source asserts that this does not happen
      else t.(slots := s.slots[i := Slot(Some(b), power, lqi, time, ackFpb)], fifo := s.fifo + [i], lastAckFpb := false)
    case AckStarted(framePending) => s.(lastAckFpb := framePending)
    case ReceiveFailed => s.(lastAckFpb := false)
    case FifoGet => s.(fifo := s.fifo[1..], pc := Got(s.fifo[0]))
    case Copy => s.(delivered := s.delivered + [FrameIn(s.mem, s.slots[s.pc.slot])], pc := Copied(s.pc.slot))
    case FreeBuffer =>
      var b := s.slots[s.pc.slot].psdu.value;
      s.(held := s.held - {b}, bufs := if s.bufs == [] then [] else s.bufs[1..], freed := s.freed + [b],
          pc := Freed(s.pc.slot))
    case ClearSlot => s.(slots := s.slots[s.pc.slot := s.slots[s.pc.slot].(psdu := None)], pc := Idle)
    case Release =>
      // Every buffer that a slot names is given back; the FIFO still holds the slots.
      s.(slots := Cleared(s.slots), held := s.held - ToSet(Psdus(s.slots)), bufs := [],
          freed := s.freed + Psdus(s.slots), up := false)
  }

  // ---------- Invariant ----------

  ghost predicate Inv(s: State) {
    && Shape(s)
    && s.handed == s.freed + s.bufs
    && s.received == s.delivered + Frames(s)[if s.pc.Copied? then 1 else 0..]
  }

  /** Slots, FIFO, thread and held buffers agree. */
  ghost predicate Shape(s: State) {
    && |s.slots| == |s.mem| + 1
    && (forall b :: b in s.held <==> b in s.bufs)
    && Named(s.slots, s.Line(), s.bufs, |s.mem|)
    && (s.pc.Freed? ==> NamesBuffer(s) && s.pc.slot !in s.fifo)
    && (forall i :: 0 <= i < |s.slots| && s.slots[i].psdu.Some? ==> i in s.Line() || s.pc == Freed(i))
  }

  /** The slots of the line name the held buffers, one each. */
  ghost predicate Named(slots: seq<Slot>, line: seq<nat>, bufs: seq<nat>, n: nat) {
    && |line| == |bufs|
    && (forall k :: 0 <= k < |line| ==> line[k] < |slots| && slots[line[k]].psdu == Some(bufs[k]))
    && (forall k :: 0 <= k < |bufs| ==> bufs[k] < n)
    && (forall j, k :: 0 <= j < k < |bufs| ==> bufs[j] != bufs[k])
  }

  /** The frames in the line, as the stack would read them now. */
  ghost function Frames(s: State): (f: seq<Frame>)
    requires Named(s.slots, s.Line(), s.bufs, |s.mem|)
    ensures |f| == |s.Line()|
  {
    FramesIn(s.mem, s.slots, s.Line(), s.bufs)
  }

  ghost function FramesIn(mem: seq<seq<byte>>, slots: seq<Slot>, line: seq<nat>, bufs: seq<nat>): (f: seq<Frame>)
    requires Named(slots, line, bufs, |mem|)
    ensures |f| == |line|
  {
    seq(|line|, k requires 0 <= k < |line| => FrameIn(mem, slots[line[k]]))
  }

  // ---------- The search always finds a slot ----------

  /** Distinct things that are all in a set are no more than the set has. */
  lemma {:induction false} Pigeonhole<T>(xs: seq<T>, h: set<T>)
    requires forall i :: 0 <= i < |xs| ==> xs[i] in h
    requires forall i, j :: 0 <= i < j < |xs| ==> xs[i] != xs[j]
    ensures |xs| <= |h|
  {
    if xs != [] {
      Pigeonhole(xs[1..], h - {xs[0]});
    }
  }

  lemma Covered(n: nat, xs: seq<nat>)
    requires forall i :: 0 <= i < n ==> i in xs
    ensures n <= |xs|
  {
    var h := set x | x in xs;
    Pigeonhole(seq(n, i => i), h);
    SetOfSeq(xs, h);
  }

  lemma {:induction false} SetOfSeq<T>(xs: seq<T>, h: set<T>)
    requires forall x :: x in h ==> x in xs
    ensures |h| <= |xs|
  {
    if xs == [] {
      assert h == {};
    } else {
      SetOfSeq(xs[1..], h - {xs[0]});
    }
  }

  /**
    Whenever the driver still has a buffer to report, a slot is free, even while a buffer given
    back is still named by the slot that the thread is about to clear.
   */
  lemma SlotAlwaysFree(s: State, b: nat)
    requires Inv(s) && b < |s.mem| && b !in s.held
    ensures FirstFree(s.slots, 0) < |s.slots|
  {
    var l := s.Line();
    Pigeonhole(s.bufs, s.held);
    HeldBound(s.held, |s.mem|, b);
    if FirstFree(s.slots, 0) == |s.slots| {
      var all := if s.pc.Freed? then l + [s.pc.slot] else l;
      assert forall i :: 0 <= i < |s.slots| ==> i in l || s.pc == Freed(i);
      Covered(|s.slots|, all);
    }
  }

  lemma {:induction false} HeldBound(held: set<nat>, n: nat, b: nat)
    requires b < n && b !in held && forall x :: x in held ==> x < n
    ensures |held| < n
  {
    Below(held + {b}, n);
  }

  lemma {:induction false} Below(h: set<nat>, n: nat)
    requires forall x :: x in h ==> x < n
    ensures |h| <= n
  {
    if n == 0 {
      assert h == {};
    } else {
      Below(h - {n - 1}, n - 1);
    }
  }

  // ---------- Every step keeps the invariant ----------

  lemma NamedAppend(slots: seq<Slot>, line: seq<nat>, bufs: seq<nat>, n: nat, i: nat, b: nat, f: Slot)
    requires Named(slots, line, bufs, n) && i < |slots| && slots[i].psdu == None
    requires b < n && b !in bufs && f.psdu == Some(b)
    ensures i !in line && Named(slots[i := f], line + [i], bufs + [b], n)
  {
  }

  lemma ReceivedKeepsInv(s: State, b: nat, power: int, lqi: int, time: int)
    requires Inv(s) && Enabled(s, Received(b, power, lqi, time))
    ensures Inv(Next(s, Received(b, power, lqi, time)))
  {
    hide FirstFree, AckFpb, Payload, IsPacket;
    var t := Next(s, Received(b, power, lqi, time));
    SlotAlwaysFree(s, b);
    ReceivedKeepsShape(s, b, power, lqi, time);
    var f := FrameIn(t.mem, t.slots[FirstFree(s.slots, 0)]);
    assert t.received == s.received + [f] && t.handed == s.handed + [b] && t.bufs == s.bufs + [b];
    hide Shape, Next, Enabled;
    JoinsLine(s.delivered, Frames(s), if s.pc.Copied? then 1 else 0, f);
    Joins(s.freed, s.bufs, b);
  }

  lemma JoinsLine<T>(a: seq<T>, f: seq<T>, k: nat, x: T)
    requires k <= |f|
    ensures a + (f + [x])[k..] == a + f[k..] + [x]
  {
    assert (f + [x])[k..] == f[k..] + [x];
  }

  lemma Joins<T>(a: seq<T>, b: seq<T>, x: T)
    ensures a + (b + [x]) == a + b + [x]
  {
  }

  lemma ReceivedKeepsShape(s: State, b: nat, power: int, lqi: int, time: int)
    requires Shape(s) && Enabled(s, Received(b, power, lqi, time)) && FirstFree(s.slots, 0) < |s.slots|
    ensures var t, i := Next(s, Received(b, power, lqi, time)), FirstFree(s.slots, 0);
            Shape(t) && Frames(t) == Frames(s) + [FrameIn(t.mem, t.slots[i])]
  {
    hide AckFpb, Payload, IsPacket;
    var t, i := Next(s, Received(b, power, lqi, time)), FirstFree(s.slots, 0);
    NamedAppend(s.slots, s.Line(), s.bufs, |s.mem|, i, b, t.slots[i]);
    hide FirstFree;
    assert t.Line() == s.Line() + [i];
    assert Named(t.slots, t.Line(), t.bufs, |t.mem|);
  }

  lemma FirstFrame(mem: seq<seq<byte>>, slots: seq<Slot>, line: seq<nat>, bufs: seq<nat>)
    requires Named(slots, line, bufs, |mem|) && line != []
    ensures |bufs| == |line| && line[0] < |slots| && slots[line[0]].psdu == Some(bufs[0]) && bufs[0] < |mem|
    ensures FramesIn(mem, slots, line, bufs)[0] == FrameIn(mem, slots[line[0]])
  {
    hide Payload;
  }

  lemma CopyKeepsInv(s: State)
    requires Inv(s) && Enabled(s, Copy)
    ensures Inv(Next(s, Copy))
  {
    hide Named, FramesIn, FrameIn, Payload, IsPacket, FirstFree, AckFpb, Psdus, Cleared;
    var t, f := Next(s, Copy), Frames(s);
    CopyKeepsShape(s);
    CopiesFirst(s);
    hide Shape, Next;
    MoveFirst(s.delivered, f);
  }

  lemma CopyKeepsShape(s: State)
    requires Shape(s) && Enabled(s, Copy)
    ensures Shape(Next(s, Copy)) && Frames(Next(s, Copy)) == Frames(s)
  {
    hide Named, FramesIn, FrameIn, Payload;
    assert Next(s, Copy).Line() == s.Line();
  }

  lemma CopiesFirst(s: State)
    requires Shape(s) && Enabled(s, Copy)
    ensures Frames(s) != []
    ensures Next(s, Copy).delivered == s.delivered + [Frames(s)[0]]
    ensures Next(s, Copy).received == s.received && Next(s, Copy).handed == s.handed
    ensures Next(s, Copy).freed == s.freed && Next(s, Copy).bufs == s.bufs && Next(s, Copy).pc.Copied?
  {
    FirstFrame(s.mem, s.slots, s.Line(), s.bufs);
    hide FramesIn, FrameIn, Payload;
  }

  lemma MoveFirst<T>(a: seq<T>, f: seq<T>)
    requires f != []
    ensures a + f[0..] == (a + [f[0]]) + f[1..]
  {
  }

  lemma DropHead(mem: seq<seq<byte>>, slots: seq<Slot>, line: seq<nat>, bufs: seq<nat>)
    requires Named(slots, line, bufs, |mem|) && line != []
    ensures Named(slots, line[1..], bufs[1..], |mem|)
    ensures line[0] < |slots| && slots[line[0]].psdu == Some(bufs[0]) && bufs[0] < |mem|
    ensures line[0] !in line[1..] && bufs[0] !in bufs[1..]
    ensures line == [line[0]] + line[1..] && bufs == [bufs[0]] + bufs[1..]
    ensures FramesIn(mem, slots, line[1..], bufs[1..]) == FramesIn(mem, slots, line, bufs)[1..]
  {
  }

  lemma Reassociate<T>(a: seq<T>, x: T, b: seq<T>)
    ensures a + ([x] + b) == (a + [x]) + b
  {
  }

  lemma FreeBufferKeepsInv(s: State)
    requires Inv(s) && Enabled(s, FreeBuffer)
    ensures Inv(Next(s, FreeBuffer))
  {
    var t := Next(s, FreeBuffer);
    DropHead(s.mem, s.slots, s.Line(), s.bufs);
    hide Named, FramesIn;
    var b := s.bufs[0];
    assert s.Line()[0] == s.pc.slot && s.Line()[1..] == s.fifo == t.Line();
    Reassociate(s.freed, b, s.bufs[1..]);
    assert t.received == t.delivered + Frames(t)[0..];
  }

  lemma Lengths(s: State)
    requires Inv(s)
    ensures |s.bufs| == |s.Line()| && |s.handed| == |s.freed| + |s.bufs|
  {
  }

  lemma OneSlotLeft(s: State)
    requires Inv(s) && s.Line() == [] && s.pc.Freed?
    ensures |Psdus(s.slots)| == 1
  {
    PsdusOfNone(s.slots, s.pc);
  }

  lemma ClearedNothing(slots: seq<Slot>)
    requires forall i :: 0 <= i < |slots| ==> slots[i].psdu == None
    ensures Cleared(slots) == slots && Psdus(slots) == []
  {
    PsdusOfNone(slots, Idle);
  }

  lemma QuietReleaseKeepsInv(s: State)
    requires Inv(s) && s.up && s.pc == Idle && s.fifo == []
    ensures Inv(Next(s, Release))
  {
    hide Named, FramesIn, Payload, IsPacket, FirstFree, AckFpb, Psdus, Cleared;
    Lengths(s);
    ClearedNothing(s.slots);
    assert s.held - ToSet([]) == s.held && s.freed + [] == s.freed;
    var t := s.(up := false);
    assert Next(s, Release) == t;
    hide Next;
    assert t.Line() == s.Line() && Frames(t) == Frames(s);
  }

  lemma ReleaseKeepsInvIff(s: State)
    requires Inv(s) && s.up
    ensures Inv(Next(s, Release)) <==> s.pc == Idle && s.fifo == []
  {
    hide Inv, Psdus, Cleared, ToSet;
    var t := Next(s, Release);
    Lengths(s);
    if s.Line() == [] {
      if s.pc.Freed? {
        OneSlotLeft(s);
      } else {
        QuietReleaseKeepsInv(s);
      }
    }
    if Inv(t) {
      Lengths(t);
    }
  }

  /** With no frame in the line only the slot that the thread is about to clear can name a buffer. */
  lemma {:induction false} PsdusOfNone(slots: seq<Slot>, pc: Pc)
    requires forall i :: 0 <= i < |slots| && slots[i].psdu.Some? ==> pc == Freed(i)
    ensures Psdus(slots)
         == if pc.Freed? && pc.slot < |slots| && slots[pc.slot].psdu.Some? then [slots[pc.slot].psdu.value] else []
  {
    if slots != [] {
      PsdusOfNone(slots[..|slots| - 1], pc);
    }
  }

  lemma DriverWritesKeepsInv(s: State, b: nat, data: seq<byte>)
    requires Inv(s) && Enabled(s, DriverWrites(b, data))
    ensures Inv(Next(s, DriverWrites(b, data)))
  {
    hide Payload, IsPacket, FirstFree, AckFpb, Psdus, Cleared, ToSet;
    var t := Next(s, DriverWrites(b, data));
    assert t.Line() == s.Line();
    assert Frames(t) == Frames(s);
  }

  lemma FifoGetKeepsInv(s: State)
    requires Inv(s) && Enabled(s, FifoGet)
    ensures Inv(Next(s, FifoGet))
  {
    hide Named, FramesIn, Payload, IsPacket, FirstFree, AckFpb, Psdus, Cleared, ToSet;
    var t := Next(s, FifoGet);
    assert t.Line() == s.Line();
    assert Frames(t) == Frames(s);
  }

  lemma ClearSlotKeepsInv(s: State)
    requires Inv(s) && Enabled(s, ClearSlot)
    ensures Inv(Next(s, ClearSlot))
  {
    hide Payload, IsPacket, FirstFree, AckFpb, Psdus, Cleared, ToSet;
    var t := Next(s, ClearSlot);
    assert t.Line() == s.Line();
    assert Frames(t) == Frames(s);
  }

  /** Every step keeps it, but for a release while the thread is busy or a frame waits. */
  lemma StepKeepsInv(s: State, step: Step)
    requires Inv(s) && Enabled(s, step)
    ensures Inv(Next(s, step)) <==> (step == Release ==> s.pc == Idle && s.fifo == [])
  {
    hide Inv, Next, IsPacket;
    match step
    case Release => ReleaseKeepsInvIff(s);
    case Received(b, power, lqi, time) => ReceivedKeepsInv(s, b, power, lqi, time);
    case Copy => CopyKeepsInv(s);
    case FreeBuffer => FreeBufferKeepsInv(s);
    case DriverWrites(b, data) => DriverWritesKeepsInv(s, b, data);
    case FifoGet => FifoGetKeepsInv(s);
    case ClearSlot => ClearSlotKeepsInv(s);
    case _ => FlagKeepsInv(s, step);
  }

  lemma FlagKeepsInv(s: State, step: Step)
    requires Inv(s) && Enabled(s, step) && (step.AckStarted? || step.ReceiveFailed?)
    ensures Inv(Next(s, step))
  {
    hide Named, FramesIn, Payload, IsPacket, FirstFree, AckFpb, Psdus, Cleared, ToSet;
    var t := Next(s, step);
    assert t.Line() == s.Line();
    assert Frames(t) == Frames(s);
  }

  // ---------- Runs ----------

  ghost predicate IsRun(s: State, steps: seq<Step>)
    decreases |steps|
  {
    steps == [] || (Enabled(s, steps[0]) && IsRun(Next(s, steps[0]), steps[1..]))
  }

  ghost function After(s: State, steps: seq<Step>): State
    requires IsRun(s, steps)
    decreases |steps|
  {
    if steps == [] then s else After(Next(s, steps[0]), steps[1..])
  }

  lemma InitHolds(mem: seq<seq<byte>>)
    ensures Inv(Init(mem))
  {
  }

  /** The slots are released only with nothing in them. */
  ghost predicate QuietRelease(s: State, steps: seq<Step>)
    requires IsRun(s, steps)
    decreases |steps|
  {
    steps != [] ==>
      && (steps[0] == Release ==> s.pc == Idle && s.fifo == [])
      && QuietRelease(Next(s, steps[0]), steps[1..])
  }

  lemma {:induction false} RunKeepsInv(s: State, steps: seq<Step>)
    requires Inv(s) && IsRun(s, steps) && QuietRelease(s, steps)
    ensures Inv(After(s, steps))
    decreases |steps|
  {
    if steps != [] {
      StepKeepsInv(s, steps[0]);
      RunKeepsInv(Next(s, steps[0]), steps[1..]);
    }
  }

  /**
    In every interleaving, frames reach the stack in the order of reception and unchanged, and
    the buffers come back in that order: each was freed once, or is held still. The stack thread
    never follows a NULL.
   */
  lemma FramesInOrder(mem: seq<seq<byte>>, steps: seq<Step>) returns (t: State)
    requires IsRun(Init(mem), steps) && QuietRelease(Init(mem), steps)
    ensures t == After(Init(mem), steps)
    ensures !FollowsNull(t)
    ensures t.delivered <= t.received
    ensures t.handed == t.freed + t.bufs
    ensures forall b :: b in t.held <==> b in t.bufs
    ensures forall j, k :: 0 <= j < k < |t.bufs| ==> t.bufs[j] != t.bufs[k]
    ensures |t.slots| == |mem| + 1
    ensures t.pc == Idle && t.fifo == [] ==> t.delivered == t.received && t.held == {}
  {
    InitHolds(mem);
    RunKeepsInv(Init(mem), steps);
    MemKeepsLength(Init(mem), steps);
    t := After(Init(mem), steps);
    ThreadNeverFaults(t);
  }

  lemma {:induction false} MemKeepsLength(s: State, steps: seq<Step>)
    requires IsRun(s, steps)
    ensures |After(s, steps).mem| == |s.mem|
    decreases |steps|
  {
    if steps != [] {
      MemKeepsLength(Next(s, steps[0]), steps[1..]);
    }
  }

  /** The thread is about to read, or to free, what its slot names, and the slot names nothing. */
  predicate FollowsNull(s: State) {
    (s.pc.Got? || s.pc.Copied?) && s.pc.slot < |s.slots| && s.slots[s.pc.slot].psdu == None
  }

  /** Under the invariant that is never so: each step of the thread is possible when its turn comes. */
  lemma ThreadNeverFaults(s: State)
    requires Inv(s)
    ensures !FollowsNull(s)
    ensures s.pc.Got? ==> Enabled(s, Copy)
    ensures s.pc.Copied? ==> Enabled(s, FreeBuffer)
    ensures s.pc.Freed? ==> Enabled(s, ClearSlot)
  {
    if s.pc.Got? || s.pc.Copied? {
      assert s.Line()[0] == s.pc.slot;
    }
  }

  // ---------- What the frames say ----------

  /** What the driver called back with: the buffer's bytes, and whether the acknowledgement had frames pending. */
  datatype Report = Report(psdu: seq<byte>, power: int, lqi: int, time: int, pending: bool)

  /**
    The frame of a report: behind the length byte as many bytes as it says, the measured values, and
    the pending bit of the acknowledgement if bit 5 of the first of those bytes asks for one.
   */
  predicate Tells(f: Frame, r: Report) {
    && |r.psdu| > 1 && |r.psdu| > r.psdu[0] as nat
    && |f.payload| == r.psdu[0] as nat
    && (forall i :: 0 <= i < |f.payload| ==> f.payload[i] == r.psdu[1 + i])
    && f.power == r.power && f.lqi == r.lqi && f.time == r.time
    && (f.ackFpb <==> r.psdu[1] & 0x20 == 0x20 && r.pending)
  }

  lemma AskedBit(b: byte)
    ensures b & 0x20 != 0 <==> b & 0x20 == 0x20
  {
  }

  lemma StoredTells(s: State, psdu: seq<byte>, power: int, lqi: int, time: int)
    requires IsPacket(psdu)
    ensures Tells(Frame(Payload(psdu), power, lqi, time, AckFpb(s, psdu)), Report(psdu, power, lqi, time, s.lastAckFpb))
  {
    AskedBit(psdu[1]);
  }

  /** A reception stores the frame that the driver reports. */
  lemma ReceivedTells(s: State, b: nat, power: int, lqi: int, time: int)
    requires Enabled(s, Received(b, power, lqi, time))
    ensures |Next(s, Received(b, power, lqi, time)).received| == |s.received| + 1
    ensures s.received <= Next(s, Received(b, power, lqi, time)).received
    ensures Tells(Next(s, Received(b, power, lqi, time)).received[|s.received|],
                  Report(s.mem[b], power, lqi, time, s.lastAckFpb))
  {
    hide FirstFree, Payload, AckFpb, Tells;
    StoredTells(s, s.mem[b], power, lqi, time);
  }

  /** Whether the last acknowledgement that was started had frames pending, if no reception came after it. */
  function PendingSaid(steps: seq<Step>): bool {
    if steps == [] then false
    else
      match steps[|steps| - 1]
      case AckStarted(framePending) => framePending
      case Received(_, _, _, _) => false
      case ReceiveFailed => false
      case _ => PendingSaid(steps[..|steps| - 1])
  }

  /** The driver's buffers after `steps`: each holds what the driver wrote there last. */
  function Written(mem: seq<seq<byte>>, steps: seq<Step>): (r: seq<seq<byte>>)
    ensures |r| == |mem|
  {
    if steps == [] then mem
    else
      var last, before := steps[|steps| - 1], Written(mem, steps[..|steps| - 1]);
      if last.DriverWrites? && last.b < |mem| then before[last.b := last.data] else before
  }

  /** The reports of a run, in order. */
  function Reports(mem: seq<seq<byte>>, steps: seq<Step>): seq<Report> {
    if steps == [] then []
    else
      var before, last := steps[..|steps| - 1], steps[|steps| - 1];
      Reports(mem, before)
      + if last.Received? && last.b < |mem|
        then [Report(Written(mem, before)[last.b], last.power, last.lqi, last.time, PendingSaid(before))]
        else []
  }

  lemma {:induction false} RunPrefix(s: State, steps: seq<Step>)
    requires IsRun(s, steps) && steps != []
    ensures IsRun(s, steps[..|steps| - 1])
    ensures Enabled(After(s, steps[..|steps| - 1]), steps[|steps| - 1])
    ensures After(s, steps) == Next(After(s, steps[..|steps| - 1]), steps[|steps| - 1])
    decreases |steps|
  {
    hide Next, Enabled;
    var n := |steps| - 1;
    if n > 0 {
      assert steps[..n][1..] == steps[1..][..n - 1];
      RunPrefix(Next(s, steps[0]), steps[1..]);
    }
  }

  /** The frames that were received are those of the reports. */
  ghost predicate TellAll(received: seq<Frame>, reports: seq<Report>) {
    |received| == |reports| && forall i :: 0 <= i < |received| ==> Tells(received[i], reports[i])
  }

  /** What a state knows of the steps that led to it. */
  ghost predicate Follows(s: State, mem: seq<seq<byte>>, steps: seq<Step>) {
    && TellAll(s.received, Reports(mem, steps))
    && s.mem == Written(mem, steps)
    && s.lastAckFpb == PendingSaid(steps)
    && (s.up ==> Inv(s))
  }

  lemma StepIsReported(s: State, step: Step, reports: seq<Report>)
    requires Enabled(s, step) && TellAll(s.received, reports)
    ensures step.Received? ==>
              TellAll(Next(s, step).received,
                      reports + [Report(s.mem[step.b], step.power, step.lqi, step.time, s.lastAckFpb)])
    ensures !step.Received? ==> Next(s, step).received == s.received
  {
    hide AckFpb, Payload, IsPacket, FirstFree, Psdus, Cleared, ToSet;
    if step.Received? {
      ReceivedTells(s, step.b, step.power, step.lqi, step.time);
      hide Next, Tells;
    }
  }

  /** The pending bit is cleared by a reception, which always finds a slot, and by a failed one. */
  lemma PendingFollows(s: State, step: Step)
    requires Enabled(s, step) && (s.up ==> Inv(s))
    ensures Next(s, step).lastAckFpb
         == match step
            case AckStarted(framePending) => framePending
            case Received(_, _, _, _) => false
            case ReceiveFailed => false
            case _ => s.lastAckFpb
    ensures Next(s, step).up ==> Inv(Next(s, step))
  {
    hide Inv, AckFpb, Payload, IsPacket, FirstFree, Psdus, Cleared, ToSet;
    if step.Received? {
      SlotAlwaysFree(s, step.b);
    }
    if s.up {
      StepKeepsInv(s, step);
    }
  }

  lemma StepFollows(s: State, mem: seq<seq<byte>>, steps: seq<Step>, step: Step)
    requires Follows(s, mem, steps) && Enabled(s, step)
    ensures Follows(Next(s, step), mem, steps + [step])
  {
    PendingFollows(s, step);
    StepIsReported(s, step, Reports(mem, steps));
    OneStepMore(mem, steps, step);
    WritesFollow(s, step);
    hide Next, Enabled, Inv, TellAll, Reports, Written, PendingSaid;
  }

  lemma WritesFollow(s: State, step: Step)
    requires Enabled(s, step)
    ensures Next(s, step).mem == if step.DriverWrites? then s.mem[step.b := step.data] else s.mem
    ensures step.DriverWrites? || step.Received? ==> step.b < |s.mem|
  {
    hide AckFpb, Payload, IsPacket, FirstFree, Psdus, Cleared, ToSet;
  }

  lemma OneStepMore(mem: seq<seq<byte>>, steps: seq<Step>, step: Step)
    ensures Written(mem, steps + [step])
         == if step.DriverWrites? && step.b < |mem| then Written(mem, steps)[step.b := step.data]
            else Written(mem, steps)
    ensures Reports(mem, steps + [step])
         == if step.Received? && step.b < |mem|
            then Reports(mem, steps)
               + [Report(Written(mem, steps)[step.b], step.power, step.lqi, step.time, PendingSaid(steps))]
            else Reports(mem, steps)
    ensures PendingSaid(steps + [step])
         == match step
            case AckStarted(framePending) => framePending
            case Received(_, _, _, _) => false
            case ReceiveFailed => false
            case _ => PendingSaid(steps)
  {
    assert (steps + [step])[..|steps|] == steps;
    assert Reports(mem, steps) + [] == Reports(mem, steps);
  }

  /** In every run whatsoever each frame received is what the driver reported, field by field. */
  lemma {:induction false} FramesAreReports(mem: seq<seq<byte>>, steps: seq<Step>)
    requires IsRun(Init(mem), steps)
    ensures TellAll(After(Init(mem), steps).received, Reports(mem, steps))
    ensures Follows(After(Init(mem), steps), mem, steps)
    decreases |steps|
  {
    hide Next, Enabled, Inv, TellAll;
    if steps == [] {
      NothingReported(mem);
    } else {
      var n := |steps| - 1;
      RunPrefix(Init(mem), steps);
      FramesAreReports(mem, steps[..n]);
      StepFollows(After(Init(mem), steps[..n]), mem, steps[..n], steps[n]);
      assert steps[..n] + [steps[n]] == steps;
    }
  }

  /** So the stack gets the frames of the reports in order, if the slots are released only when empty. */
  lemma StackGetsReports(mem: seq<seq<byte>>, steps: seq<Step>)
    requires IsRun(Init(mem), steps) && QuietRelease(Init(mem), steps)
    ensures |After(Init(mem), steps).delivered| <= |Reports(mem, steps)|
    ensures TellAll(After(Init(mem), steps).delivered, Reports(mem, steps)[..|After(Init(mem), steps).delivered|])
  {
    hide Tells;
    FramesAreReports(mem, steps);
    var t := FramesInOrder(mem, steps);
    hide IsRun, After, QuietRelease, Reports;
  }

  lemma NothingReported(mem: seq<seq<byte>>)
    ensures Follows(Init(mem), mem, [])
  {
    InitHolds(mem);
  }

  // ---------- The bytes that the thread reads ----------

  /** Until it is given back, a buffer that the driver reported holds the packet. */
  ghost predicate HoldsPackets(s: State) {
    forall b :: b in s.held && b < |s.mem| ==> IsPacket(s.mem[b])
  }

  lemma PacketsStay(s: State, step: Step)
    requires HoldsPackets(s) && Enabled(s, step)
    ensures HoldsPackets(Next(s, step))
  {
    hide IsPacket, Payload, FirstFree, AckFpb, Psdus, Cleared;
  }

  /** The buffer that slot `i` names. */
  function PsduOf(mem: seq<seq<byte>>, slots: seq<Slot>, i: nat): seq<byte> {
    if i < |slots| && slots[i].psdu.Some? && slots[i].psdu.value < |mem| then mem[slots[i].psdu.value] else []
  }

  /** The payload is what stands behind the length byte, as many bytes as that says. */
  predicate Carries(f: Frame, psdu: seq<byte>) {
    && |psdu| > 0 && |psdu| > psdu[0] as nat && |f.payload| == psdu[0] as nat
    && forall i :: 0 <= i < |f.payload| ==> f.payload[i] == psdu[1 + i]
  }

  lemma CopyCarries(s: State)
    requires Inv(s) && HoldsPackets(s) && Enabled(s, Copy)
    ensures Next(s, Copy).delivered == s.delivered + [FrameIn(s.mem, s.slots[s.pc.slot])]
    ensures Carries(FrameIn(s.mem, s.slots[s.pc.slot]), PsduOf(s.mem, s.slots, s.pc.slot))
  {
    assert s.Line()[0] == s.pc.slot && s.slots[s.pc.slot].psdu == Some(s.bufs[0]);
  }

  predicate DriverStep(step: Step) {
    step.DriverWrites? || step.Received? || step.AckStarted? || step.ReceiveFailed?
  }

  /** The driver leaves the frame that the thread is reading alone. */
  lemma DriverLeavesFrame(s: State, step: Step)
    requires Inv(s) && s.pc.Got? && Enabled(s, step)
    requires DriverStep(step)
    ensures PsduOf(Next(s, step).mem, Next(s, step).slots, s.pc.slot) == PsduOf(s.mem, s.slots, s.pc.slot)
  {
    HeadIsHeld(s);
    hide Inv, FirstFree, Payload, IsPacket, AckFpb, Psdus, Cleared;
  }

  lemma HeadIsHeld(s: State)
    requires Inv(s) && s.pc.Got?
    ensures s.pc.slot < |s.slots| && s.slots[s.pc.slot].psdu.Some?
    ensures s.slots[s.pc.slot].psdu.value in s.held && s.slots[s.pc.slot].psdu.value < |s.mem|
  {
    hide Frames;
    assert s.Line()[0] == s.pc.slot && s.slots[s.pc.slot].psdu == Some(s.bufs[0]);
  }

  // ---------- Release of all slots when the radio is taken down ----------

  /** The slots name each held buffer once and no other. */
  ghost predicate NameExactly(slots: seq<Slot>, held: set<nat>) {
    && (forall i :: 0 <= i < |slots| && slots[i].psdu.Some? ==> slots[i].psdu.value in held)
    && (forall i, j :: 0 <= i < j < |slots| && slots[i].psdu.Some? ==> slots[i].psdu != slots[j].psdu)
    && (forall b :: b in held ==> exists i :: 0 <= i < |slots| && slots[i].psdu == Some(b))
  }

  lemma {:induction false} PsdusExactly(slots: seq<Slot>, held: set<nat>)
    ensures multiset(Psdus(slots)) == multiset(held) <==> NameExactly(slots, held)
  {
    if slots == [] {
      if b :| b in held {
        assert multiset(held)[b] == 1 && multiset(Psdus(slots))[b] == 0;
      }
    } else {
      hide NameExactly;
      var rest, last := slots[..|slots| - 1], slots[|slots| - 1];
      assert slots == rest + [last];
      if last.psdu == None {
        PsdusExactly(rest, held);
        SameNames(rest, last, held);
        assert Psdus(slots) == Psdus(rest);
      } else {
        PsdusExactly(rest, held - {last.psdu.value});
        OneMoreName(rest, last, held);
        OneMoreItem(Psdus(rest), last.psdu.value, held);
      }
    }
  }

  lemma OneMoreItem(p: seq<nat>, b: nat, held: set<nat>)
    ensures multiset(p + [b]) == multiset(held) <==> b in held && multiset(p) == multiset(held - {b})
  {
    assert multiset(p + [b]) == multiset(p) + multiset{b};
    assert multiset(p) == multiset(p + [b]) - multiset{b};
    assert multiset(p + [b])[b] > 0;
    if b in held {
      assert multiset(held - {b}) == multiset(held) - multiset{b};
      assert multiset(held) == multiset(held - {b}) + multiset{b};
    } else {
      assert multiset(held)[b] == 0;
    }
  }

  lemma SameNames(rest: seq<Slot>, last: Slot, held: set<nat>)
    requires last.psdu == None
    ensures NameExactly(rest + [last], held) <==> NameExactly(rest, held)
  {
    var slots := rest + [last];
    assert forall i :: 0 <= i < |rest| ==> slots[i] == rest[i];
  }

  lemma OneMoreName(rest: seq<Slot>, last: Slot, held: set<nat>)
    requires last.psdu.Some?
    ensures NameExactly(rest + [last], held) <==> last.psdu.value in held && NameExactly(rest, held - {last.psdu.value})
  {
    var slots, b := rest + [last], last.psdu.value;
    assert forall i :: 0 <= i < |rest| ==> slots[i] == rest[i];
    assert slots[|rest|] == last;
  }

  /**
    Freeing what every slot names frees each held buffer once and no other, exactly when the
    thread is not between freeing a buffer and clearing its slot.
   */
  lemma ReleaseIsExactIff(s: State)
    requires Inv(s)
    ensures multiset(Psdus(s.slots)) == multiset(s.held) <==> !s.pc.Freed?
  {
    PsdusExactly(s.slots, s.held);
    NameExactlyIff(s);
  }

  lemma NameExactlyIff(s: State)
    requires Inv(s)
    ensures NameExactly(s.slots, s.held) <==> !s.pc.Freed?
  {
    var l := s.Line();
    if s.pc.Freed? {
      var i, b := s.pc.slot, s.slots[s.pc.slot].psdu.value;
      if b in s.held {
        var k :| 0 <= k < |s.bufs| && s.bufs[k] == b;
        assert l[k] != i && s.slots[l[k]].psdu == s.slots[i].psdu;
      }
    } else {
      forall b | b in s.held ensures exists i :: 0 <= i < |s.slots| && s.slots[i].psdu == Some(b) {
        var k :| 0 <= k < |s.bufs| && s.bufs[k] == b;
        assert s.slots[l[k]].psdu == Some(b);
      }
    }
  }

  ghost predicate CanFollowNull(s: State) {
    exists steps :: IsRun(s, steps) && FollowsNull(After(s, steps))
  }

  /** What the release leaves when no frame waits and none is being read. */
  ghost predicate DownAndEmpty(s: State) {
    !s.up && s.fifo == [] && (s.pc == Idle || s.pc.Freed?)
  }

  lemma {:induction false} DownStaysEmpty(s: State, steps: seq<Step>)
    requires DownAndEmpty(s) && IsRun(s, steps)
    ensures DownAndEmpty(After(s, steps))
    decreases |steps|
  {
    if steps != [] {
      DownStaysEmpty(Next(s, steps[0]), steps[1..]);
    }
  }

  /**
    After a release the thread can come to follow a NULL exactly when a frame still waited in the
    FIFO, or was being read.
   */
  lemma ReleaseFollowsNullIff(s: State)
    requires Inv(s) && s.up
    ensures CanFollowNull(Next(s, Release)) <==> s.fifo != [] || s.pc.Got? || s.pc.Copied?
  {
    var t := Next(s, Release);
    if s.pc.Got? || s.pc.Copied? {
      assert s.Line()[0] == s.pc.slot;
      assert IsRun(t, []) && FollowsNull(After(t, []));
    } else if s.fifo != [] {
      var steps := NullFromFifo(s);
      assert IsRun(t, steps) && FollowsNull(After(t, steps));
    } else {
      forall steps | IsRun(t, steps) ensures !FollowsNull(After(t, steps)) {
        DownStaysEmpty(t, steps);
      }
    }
  }

  lemma NullFromFifo(s: State) returns (steps: seq<Step>)
    requires Inv(s) && s.up && s.fifo != [] && (s.pc == Idle || s.pc.Freed?)
    ensures IsRun(Next(s, Release), steps) && FollowsNull(After(Next(s, Release), steps))
  {
    hide Payload, IsPacket, FirstFree, AckFpb, Psdus, ToSet;
    var t := Next(s, Release);
    assert s.Line()[0] == s.fifo[0];
    steps := [FifoGet];
    if s.pc == Idle {
      assert IsRun(t, steps) && After(t, steps) == Next(t, FifoGet) by { assert steps[1..] == []; }
    } else {
      var u := Next(t, ClearSlot);
      assert IsRun(u, steps) && After(u, steps) == Next(u, FifoGet) by { assert steps[1..] == []; }
      steps := [ClearSlot, FifoGet];
      assert steps[1..] == [FifoGet];
    }
  }

  // Both failures can be reached, with the first frame that is received.

  lemma Extend(mem: seq<seq<byte>>, run: seq<Step>, step: Step) returns (steps: seq<Step>)
    requires IsRun(Init(mem), run) && Enabled(After(Init(mem), run), step)
    ensures steps == run + [step] && IsRun(Init(mem), steps)
    ensures After(Init(mem), steps) == Next(After(Init(mem), run), step)
  {
    steps := run + [step];
    RunAppend(Init(mem), run, step);
  }

  lemma {:induction false} RunAppend(s: State, steps: seq<Step>, step: Step)
    requires IsRun(s, steps) && Enabled(After(s, steps), step)
    ensures IsRun(s, steps + [step]) && After(s, steps + [step]) == Next(After(s, steps), step)
    decreases |steps|
  {
    if steps == [] {
      assert [step][1..] == [];
    } else {
      assert (steps + [step])[1..] == steps[1..] + [step];
      RunAppend(Next(s, steps[0]), steps[1..], step);
    }
  }

  lemma OneFrame(mem: seq<seq<byte>>) returns (steps: seq<Step>)
    requires mem != []
    ensures IsRun(Init(mem), steps)
    ensures After(Init(mem), steps).up && After(Init(mem), steps).pc == Idle && After(Init(mem), steps).fifo != []
    ensures Inv(After(Init(mem), steps))
  {
    var s := Init(mem);
    InitHolds(mem);
    var t := Next(s, DriverWrites(0, [1, 0]));
    StepKeepsInv(s, DriverWrites(0, [1, 0]));
    assert IsPacket([1, 0]);
    hide Inv, IsPacket, Payload, FirstFree, AckFpb;
    SlotAlwaysFree(t, 0);
    StepKeepsInv(t, Received(0, 0, 0, 0));
    steps := [];
    steps := Extend(mem, steps, DriverWrites(0, [1, 0]));
    steps := Extend(mem, steps, Received(0, 0, 0, 0));
  }

  /** A run in which the thread follows a NULL. */
  lemma ReleaseThenNull(mem: seq<seq<byte>>) returns (steps: seq<Step>)
    requires mem != []
    ensures IsRun(Init(mem), steps) && FollowsNull(After(Init(mem), steps))
  {
    steps := OneFrame(mem);
    var s := After(Init(mem), steps);
    assert s.Line()[0] == s.fifo[0];
    steps := Extend(mem, steps, Release);
    steps := Extend(mem, steps, FifoGet);
  }

  lemma FreedIsNamedStill(s: State)
    requires Inv(s) && s.up && s.pc == Idle && s.fifo != []
    ensures Enabled(s, FifoGet) && Enabled(Next(s, FifoGet), Copy) && Enabled(Next(Next(s, FifoGet), Copy), FreeBuffer)
    ensures Enabled(Next(Next(Next(s, FifoGet), Copy), FreeBuffer), Release)
    ensures multiset(Psdus(Next(Next(Next(s, FifoGet), Copy), FreeBuffer).slots))
         != multiset(Next(Next(Next(s, FifoGet), Copy), FreeBuffer).held)
  {
    hide Inv, Psdus, Payload, IsPacket;
    var got := Next(s, FifoGet);
    StepKeepsInv(s, FifoGet);
    ThreadNeverFaults(got);
    var copied := Next(got, Copy);
    StepKeepsInv(got, Copy);
    ThreadNeverFaults(copied);
    StepKeepsInv(copied, FreeBuffer);
    ReleaseIsExactIff(Next(copied, FreeBuffer));
  }

  /** A run after which a release gives back a buffer that the driver has already. */
  lemma ReleaseGivesBackTwice(mem: seq<seq<byte>>) returns (steps: seq<Step>)
    requires mem != []
    ensures IsRun(Init(mem), steps) && Enabled(After(Init(mem), steps), Release)
    ensures multiset(Psdus(After(Init(mem), steps).slots)) != multiset(After(Init(mem), steps).held)
  {
    hide Next, Inv, Psdus, Enabled;
    steps := OneFrame(mem);
    FreedIsNamedStill(After(Init(mem), steps));
    steps := Extend(mem, steps, FifoGet);
    steps := Extend(mem, steps, Copy);
    steps := Extend(mem, steps, FreeBuffer);
  }

  // ---------- The functions themselves ----------

  lemma FirstFreeIs(slots: seq<Slot>, from: nat, i: nat)
    requires from <= i <= |slots| && (i < |slots| ==> slots[i].psdu == None)
    requires forall j :: from <= j < i ==> slots[j].psdu != None
    ensures FirstFree(slots, from) == i
  {
  }

  class Transceiver {
    const frames: array<Slot>
    var fifo: seq<nat>
    var lastAckFpb: bool
    var up: bool
    // The driver, the stack thread and the history.
    var mem: seq<seq<byte>>
    var held: set<nat>
    var pc: Pc
    var delivered: seq<Frame>
    ghost var bufs: seq<nat>
    ghost var handed: seq<nat>
    ghost var freed: seq<nat>
    ghost var received: seq<Frame>

    ghost function Abs(): State
      reads this, frames
    {
      State(mem, held, bufs, frames[..], fifo, lastAckFpb, up, pc, handed, freed, received, delivered)
    }

    ghost predicate Valid()
      reads this, frames
    {
      Inv(Abs()) && HoldsPackets(Abs())
    }

    constructor (mem: seq<seq<byte>>)
      ensures Valid() && fresh(frames) && Abs() == Init(mem)
    {
      frames := new Slot[|mem| + 1](_ => FREE_SLOT);
      fifo, lastAckFpb, up, this.mem, held, pc, delivered := [], false, true, mem, {}, Idle, [];
      bufs, handed, freed, received := [], [], [], [];
    }

    /** The driver's reception callback. */
    method ReceivedTimestampRaw(b: nat, power: int, lqi: int, time: int)
      requires Valid() && Enabled(Abs(), Received(b, power, lqi, time))
      modifies this, frames
      ensures Valid() && Abs() == Next(old(Abs()), Received(b, power, lqi, time))
    {
      hide Inv, HoldsPackets, FirstFree, Payload, IsPacket, AckFpb;
      ghost var before := Abs();
      SlotAlwaysFree(before, b);
      StepKeepsInv(before, Received(b, power, lqi, time));
      PacketsStay(before, Received(b, power, lqi, time));
      var slot := FindFree();
      var ackFpb := FramePending(b);
      held, bufs, handed := held + {b}, bufs + [b], handed + [b];
      received := received + [Frame(Payload(mem[b]), power, lqi, time, ackFpb)];
      FillSlot(slot, Slot(Some(b), power, lqi, time, ackFpb));
      lastAckFpb := false;
      fifo := fifo + [slot];
      assert Abs() == Next(before, Received(b, power, lqi, time));
    }

    method FillSlot(i: nat, f: Slot)
      requires i < frames.Length
      modifies frames
      ensures frames[..] == old(frames[..])[i := f]
    {
      frames[i] := f;
    }

    /** The pending bit of the acknowledgement, if the frame asked for one. */
    method FramePending(b: nat) returns (ackFpb: bool)
      requires b < |mem| && |mem[b]| > ACK_REQUEST_OFFSET
      ensures ackFpb == AckFpb(Abs(), mem[b])
    {
      if mem[b][ACK_REQUEST_OFFSET] & ACK_REQUEST_BIT != 0 {
        ackFpb := lastAckFpb;
      } else {
        ackFpb := false;
      }
    }

    /** The search at the start of the callback. */
    method FindFree() returns (slot: nat)
      ensures slot == FirstFree(frames[..], 0)
    {
      slot := 0;
      while slot < frames.Length && frames[slot].psdu != None
        invariant slot <= frames.Length
        invariant forall j :: 0 <= j < slot ==> frames[j].psdu != None
      {
        slot := slot + 1;
      }
      FirstFreeIs(frames[..], 0, slot);
    }

    /** What the driver may do between two statements of the stack thread. */
    method Interrupt(step: Step)
      requires Valid()
      modifies this, frames
      ensures Valid() && pc == old(pc) && delivered == old(delivered)
      ensures old(fifo) <= fifo && old(received) <= received
      ensures pc.Got? ==> PsduOf(mem, frames[..], pc.slot) == old(PsduOf(mem, frames[..], pc.slot))
    {
      hide Inv, HoldsPackets, PsduOf;
      ghost var before := Abs();
      if pc.Got? && Enabled(before, step) && DriverStep(step) {
        DriverLeavesFrame(before, step);
      }
      match step
      case Received(b, power, lqi, time) =>
        if up && b < |mem| && b !in held && IsPacket(mem[b]) {
          ReceivedTimestampRaw(b, power, lqi, time);
        }
      case DriverWrites(b, data) =>
        if b < |mem| && b !in held {
          StepKeepsInv(before, step);
          PacketsStay(before, step);
          mem := mem[b := data];
        }
      case AckStarted(framePending) =>
        if up {
          StepKeepsInv(before, step);
          PacketsStay(before, step);
          lastAckFpb := framePending;
        }
      case ReceiveFailed =>
        if up {
          StepKeepsInv(before, step);
          PacketsStay(before, step);
          lastAckFpb := false;
        }
      case _ =>
    }

    method Interrupts()
      requires Valid()
      modifies this, frames
      ensures Valid() && pc == old(pc) && delivered == old(delivered)
      ensures old(fifo) <= fifo && old(received) <= received
      ensures pc.Got? ==> PsduOf(mem, frames[..], pc.slot) == old(PsduOf(mem, frames[..], pc.slot))
    {
      hide Inv, HoldsPackets, PsduOf;
      var steps: seq<Step> := *;
      for i := 0 to |steps|
        invariant Valid() && pc == old(pc) && delivered == old(delivered)
        invariant old(fifo) <= fifo && old(received) <= received
        invariant pc.Got? ==> PsduOf(mem, frames[..], pc.slot) == old(PsduOf(mem, frames[..], pc.slot))
      {
        Interrupt(steps[i]);
      }
    }

    /** The oldest waiting frame, read with the driver interrupt landing anywhere in between. */
    method GetNextPacket(buf: bool) returns (got: bool)
      requires Valid() && pc == Idle
      modifies this, frames
      ensures Valid() && pc == Idle
      ensures got == (buf && old(fifo) != [])
      ensures got ==> |old(delivered)| < |old(received)|
      ensures got ==> |delivered| == |old(delivered)| + 1
                      && Carries(delivered[|old(delivered)|], old(PsduOf(mem, frames[..], fifo[0])))
      ensures delivered == if got then old(received)[..|old(delivered)| + 1] else old(delivered)
    {
      hide Inv, HoldsPackets, PsduOf;
      if !buf || fifo == [] {
        return false;
      }
      ghost var before := Abs();
      FifoHoldsReceived(before);
      StepKeepsInv(before, FifoGet);
      PacketsStay(before, FifoGet);
      pc, fifo := Got(fifo[0]), fifo[1..];
      assert Abs() == Next(before, FifoGet);
      Interrupts();

      CopyFrame();
      Interrupts();
      ReleaseFrame();
      got := true;
    }

    /** The frame goes to the stack. */
    method CopyFrame()
      requires Valid() && pc.Got?
      modifies this
      ensures Valid() && pc.Copied?
      ensures received == old(received) && |old(delivered)| < |received|
      ensures Carries(received[|old(delivered)|], old(PsduOf(mem, frames[..], pc.slot)))
      ensures delivered == received[..|old(delivered)| + 1]
    {
      hide Inv, HoldsPackets, PsduOf;
      ghost var before := Abs();
      ThreadNeverFaults(before);
      CopyCarries(before);
      StepKeepsInv(before, Copy);
      PacketsStay(before, Copy);
      var rxFrame := frames[pc.slot];
      delivered, pc := delivered + [FrameIn(mem, rxFrame)], Copied(pc.slot);
      assert Abs() == Next(before, Copy);
      DeliveredIsPrefix(Abs());
    }

    /** The end of that function: the buffer goes back to the driver before its slot is cleared. */
    method ReleaseFrame()
      requires Valid() && pc.Copied?
      modifies this, frames
      ensures Valid() && pc == Idle && delivered == old(delivered)
    {
      hide Inv, HoldsPackets, PsduOf;
      ghost var before := Abs();
      ThreadNeverFaults(before);
      StepKeepsInv(before, FreeBuffer);
      PacketsStay(before, FreeBuffer);
      var b := frames[pc.slot].psdu.value;
      held, bufs, freed, pc := held - {b}, if bufs == [] then [] else bufs[1..], freed + [b], Freed(pc.slot);
      Interrupts();

      before := Abs();
      ThreadNeverFaults(before);
      StepKeepsInv(before, ClearSlot);
      PacketsStay(before, ClearSlot);
      frames[pc.slot] := frames[pc.slot].(psdu := None);
      pc := Idle;
      assert frames[..] == Next(before, ClearSlot).slots;
    }

    /** When the radio is taken down; `released` are the buffers given back. */
    method ReleaseRxFrames() returns (released: seq<nat>)
      requires Valid() && up
      modifies this, frames
      ensures released == Psdus(old(frames[..])) && Abs() == Next(old(Abs()), Release)
    {
      hide Inv, Payload, IsPacket, Psdus, ToSet, Cleared;
      ghost var before := Abs();
      released := FreeAll();
      bufs, freed, up := [], freed + released, false;
      assert Abs() == Next(before, Release);
    }

    method FreeAll() returns (released: seq<nat>)
      modifies this`held, frames
      ensures released == Psdus(old(frames[..])) && held == old(held) - ToSet(released)
      ensures frames[..] == Cleared(old(frames[..]))
    {
      ghost var slots := frames[..];
      released := [];
      for i := 0 to frames.Length
        invariant released == Psdus(slots[..i])
        invariant held == old(held) - ToSet(released)
        invariant forall j :: 0 <= j < i ==> frames[j] == slots[j].(psdu := None)
        invariant forall j :: i <= j < frames.Length ==> frames[j] == slots[j]
      {
        assert slots[..i + 1][..i] == slots[..i];
        if frames[i].psdu != None {
          var psdu := frames[i].psdu.value;
          held, released := held - {psdu}, released + [psdu];
          frames[i] := frames[i].(psdu := None);
        }
      }
      assert slots[..frames.Length] == slots;
    }
  }

  lemma FifoHoldsReceived(s: State)
    requires Inv(s) && s.pc == Idle && s.fifo != []
    ensures |s.delivered| < |s.received|
  {
  }

  lemma DeliveredIsPrefix(s: State)
    requires Inv(s)
    ensures s.delivered <= s.received
  {
  }
}
