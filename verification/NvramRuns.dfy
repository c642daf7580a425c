/**
  Whole runs of NVRAM calls: the cached driver against the plain array of
  zb_nrf_nvram_none.c, with and without flash failures, and the order in which
  accepted calls reach the flash.
 */
module NvramRuns {
  import opened Basics
  import opened BlockWrite
  import opened Flash
  import opened Nvram

  // ---------- The plain version: memcpy and memset on one array ----------

  function PlainStep(g: Geometry, mem: seq<byte>, c: Call): (r: (seq<byte>, Outcome))
    requires g.Valid() && g.Base(g.pageCount) <= |mem|
    ensures |r.0| == |mem|
  {
    match c
    case Read(page, pos, len, isNull) =>
      var code := RangeCheck(g, page, pos, len, isNull);
      if code != RET_OK then (mem, Outcome(code, [], false))
      else
        PageFits(g, page, pos, len);
        (mem, Outcome(RET_OK, mem[g.Base(page) + pos..][..len], false))
    case Write(page, pos, data, isNull) =>
      var code := RangeCheck(g, page, pos, |data|, isNull);
      if code != RET_OK then (mem, Outcome(code, [], false))
      else
        PageFits(g, page, pos, |data|);
        (Programmed(Overwrite, mem, g.Base(page) + pos, data), Outcome(RET_OK, [], false))
    case Erase(page) => (Wiped(g, mem, page), Outcome(RET_OK, [], false))
    case Flush => (mem, Outcome(RET_OK, [], false))
  }

  class PlainNvram {
    const g: Geometry
    // The pages of the two-dimensional array, one after the other.
    const buf: array<byte>

    ghost predicate Valid() {
      g.Valid() && buf.Length == g.Base(g.pageCount)
    }

    constructor (g: Geometry)
      requires g.Valid()
      ensures Valid() && this.g == g && fresh(buf)
      ensures buf[..] == seq(buf.Length, _ => ERASED)
    {
      this.g := g;
      buf := new byte[g.Base(g.pageCount)](_ => ERASED);
    }

    method Read(page: nat, pos: nat, dst: array?<byte>, len: nat) returns (ret: Ret)
      requires Valid() && dst != buf && (dst != null ==> len <= dst.Length)
      modifies dst
      ensures ret == RET_OK ==> dst != null
      ensures (buf[..], Outcome(ret, if ret == RET_OK then dst[..len] else [], false))
           == PlainStep(g, old(buf[..]), Call.Read(page, pos, len, dst == null))
    {
      if page >= g.pageCount { return RET_PAGE_NOT_FOUND; }
      if pos + len > g.pageLen { return RET_INVALID_PARAMETER; }
      if dst == null { return RET_INVALID_PARAMETER_3; }
      PageFits(g, page, pos, len);
      var addr := g.Base(page) + pos;
      forall i | 0 <= i < len {
        dst[i] := buf[addr + i];
      }
      assert buf[..] == old(buf[..]) && dst[..len] == buf[..][addr..][..len];
      return RET_OK;
    }

    method Write(page: nat, pos: nat, src: array?<byte>, len: nat) returns (ret: Ret)
      requires Valid() && src != buf && (src != null ==> len <= src.Length)
      modifies buf
      ensures (buf[..], Outcome(ret, [], false)) == PlainStep(g, old(buf[..]),
                Call.Write(page, pos, if src == null then seq(len, _ => 0) else src[..len], src == null))
    {
      if page >= g.pageCount { return RET_PAGE_NOT_FOUND; }
      if pos + len > g.pageLen { return RET_INVALID_PARAMETER; }
      if src == null { return RET_INVALID_PARAMETER_3; }
      PageFits(g, page, pos, len);
      var addr := g.Base(page) + pos;
      forall i | 0 <= i < len {
        buf[addr + i] := src[i];
      }
      assert buf[..] == Programmed(Overwrite, old(buf[..]), addr, src[..len]);
      return RET_OK;
    }

    method EraseAsync(page: nat) returns (ret: Ret)
      requires Valid()
      modifies buf
      ensures (buf[..], Outcome(ret, [], false)) == PlainStep(g, old(buf[..]), Call.Erase(page))
    {
      if page < g.pageCount {
        PageFits(g, page, 0, g.pageLen);
        var base := g.Base(page);
        forall i | base <= i < base + g.pageLen {
          buf[i] := ERASED;
        }
        assert buf[..] == Wiped(g, old(buf[..]), page);
      }
      return RET_OK;
    }
  }

  // ---------- Runs ----------

  datatype Event = Event(call: Call, out: Outcome)

  ghost predicate Run(g: Geometry, s: seq<Nv>, evs: seq<Event>) {
    && |s| == |evs| + 1
    && s[0].Valid(g)
    && forall i :: 0 <= i < |evs| ==> s[i].Valid(g) && MayStep(g, s[i], evs[i].call, evs[i].out, s[i + 1])
  }

  /** The calls on which the two versions answer differently, whatever the contents. */
  predicate Odd(g: Geometry, c: Call) {
    || (c.Read? && RangeCheck(g, c.page, c.pos, c.len, c.isNull) == RET_OK && c.len == 0)
    || (c.Write? && RangeCheck(g, c.page, c.pos, |c.data|, c.isNull) == RET_OK && 0 < |c.data| < 4)
  }

  /** Programming stores the data of this call as memcpy would. */
  ghost predicate Storable(g: Geometry, mem: seq<byte>, c: Call)
    requires g.Valid() && g.Base(g.pageCount) <= |mem|
  {
    g.kind.Nor? && c.Write? && RangeCheck(g, c.page, c.pos, |c.data|, c.isNull) == RET_OK ==>
      (PageFits(g, c.page, c.pos, |c.data|);
       Programmed(Nor, mem, g.Base(c.page) + c.pos, c.data)
    == Programmed(Overwrite, mem, g.Base(c.page) + c.pos, c.data))
  }

  /** What the plain array holds after the accepted calls among `evs`. */
  ghost function PlainAfter(g: Geometry, mem: seq<byte>, evs: seq<Event>): (r: seq<byte>)
    requires g.Valid() && g.Base(g.pageCount) <= |mem|
    ensures |r| == |mem|
  {
    if evs == [] then mem
    else
      var before := PlainAfter(g, mem, evs[..|evs| - 1]);
      var e := evs[|evs| - 1];
      if e.out.ret == RET_OK then PlainStep(g, before, e.call).0 else before
  }

  /** A call that failed did no more than commit the cache, in whole or in part. */
  ghost predicate Traceless(g: Geometry, nv: Nv, e: Event, nv': Nv)
    requires nv.Valid(g)
  {
    e.out.ret == RET_ERROR ==> CommitFailed(g, nv, nv') || nv' == nv.Committed(g)
  }

  /** An accepted call that changes contents. */
  predicate Changes(g: Geometry, e: Event) {
    e.out.ret == RET_OK && match e.call
      case Write(page, pos, data, _) => g.InPage(page, pos, |data|) && data != []
      case Erase(page) => page < g.pageCount
      case _ => false
  }

  function DeviceStep(g: Geometry, mem: seq<byte>, e: Event): (r: seq<byte>)
    requires g.Valid() && g.Base(g.pageCount) <= |mem|
    ensures |r| == |mem|
  {
    if !Changes(g, e) then mem
    else if e.call.Erase? then Wiped(g, mem, e.call.page)
    else
      PageFits(g, e.call.page, e.call.pos, |e.call.data|);
      Programmed(g.kind, mem, g.Base(e.call.page) + e.call.pos, e.call.data)
  }

  /** A failed commit, at whatever byte it stopped, changes nothing that a reader sees. */
  lemma FailedCommitKeepsLogical(g: Geometry, nv: Nv, nv': Nv)
    requires nv.Valid(g) && CommitFailed(g, nv, nv')
    ensures nv'.Valid(g) && nv'.Logical(g) == nv.Logical(g)
    ensures nv'.Committed(g) == nv.Committed(g)
  {
    hide Programmed, StopsAt;
    PageFits(g, nv.page, nv.pos, |nv.pending|);
    var k: nat :| k <= |nv.pending| && StopsAt(g.writeBlock, nv.Addr(g), |nv.pending|, k)
                  && nv' == nv.(flash := Programmed(g.kind, nv.flash, nv.Addr(g), nv.pending[..k]));
    ProgrammedTwice(g.kind, nv.flash, nv.Addr(g), nv.pending, k, |nv.pending|);
    assert nv.pending[..|nv.pending|] == nv.pending;
  }

  lemma EmptyCacheLogical(g: Geometry, nv: Nv)
    requires nv.Valid(g) && nv.pending == []
    ensures nv.Logical(g) == nv.flash && nv.Committed(g) == nv
  {
    hide Programmed;
    PageFits(g, nv.page, nv.pos, 0);
    assert nv.pending[..0] == nv.pending;
    ProgrammedNothing(g.kind, nv.flash, nv.Addr(g), nv.pending);
  }

  lemma ContinuedLogical(g: Geometry, nv: Nv, data: seq<byte>)
    requires nv.Valid(g) && Continues(g, nv, nv.page, nv.pos + |nv.pending|, |data|)
    requires g.InPage(nv.page, nv.pos + |nv.pending|, |data|)
    ensures nv.(pending := nv.pending + data).Valid(g)
    ensures nv.Addr(g) + |nv.pending| + |data| <= |nv.flash|
    ensures nv.(pending := nv.pending + data).Logical(g)
         == Programmed(g.kind, nv.Logical(g), nv.Addr(g) + |nv.pending|, data)
  {
    PageFits(g, nv.page, nv.pos, |nv.pending| + |data|);
    var all := nv.pending + data;
    assert all[..|nv.pending|] == nv.pending && all[|nv.pending|..] == data;
    ProgrammedSplit(g.kind, nv.flash, nv.Addr(g), all, |nv.pending|);
  }

  lemma TracelessRefines(g: Geometry, nv: Nv, e: Event, nv': Nv)
    requires nv.Valid(g) && MayStep(g, nv, e.call, e.out, nv')
    requires Traceless(g, nv, e, nv') && Storable(g, nv.Logical(g), e.call)
    ensures nv'.Valid(g)
    ensures nv'.Logical(g) == if e.out.ret == RET_OK then PlainStep(g, nv.Logical(g), e.call).0 else nv.Logical(g)
    ensures e.out.ret == RET_OK ==> e.out.bytes == PlainStep(g, nv.Logical(g), e.call).1.bytes
    ensures e.out.ret != RET_ERROR && !Odd(g, e.call) ==> e.out.ret == PlainStep(g, nv.Logical(g), e.call).1.ret
  {
    hide Programmed, Filled;
    StepKeepsValid(g, nv, e.call, e.out, nv');
    if nv'.pending == [] {
      EmptyCacheLogical(g, nv');
    }
    if CommitFailed(g, nv, nv') {
      FailedCommitKeepsLogical(g, nv, nv');
    }
    match e.call
    case Read(page, pos, len, _) =>
      if e.out.ret == RET_OK {
        PageFits(g, page, pos, len);
        var addr := g.Base(page) + pos;
        assert nv'.flash[addr..][..len] == nv'.flash[addr..addr + len];
      }
    case Write(_, _, _, _) => StepRefinesWrite(g, nv, e, nv');
    case Erase(_) =>
    case Flush =>
  }

  /** One call, flash failures included: readers see what the accepted calls wrote, and nothing else. */
  lemma StepRefines(g: Geometry, nv: Nv, e: Event, nv': Nv)
    requires nv.Valid(g) && MayStep(g, nv, e.call, e.out, nv')
    requires LeavesNoTrace(g, nv, e, nv') && Storable(g, nv.Logical(g), e.call)
    ensures nv'.Valid(g)
    ensures nv'.Logical(g) == if e.out.ret == RET_OK then PlainStep(g, nv.Logical(g), e.call).0 else nv.Logical(g)
    ensures e.out.ret == RET_OK ==> e.out.bytes == PlainStep(g, nv.Logical(g), e.call).1.bytes
    ensures e.out.ret != RET_ERROR && !Odd(g, e.call) ==> e.out.ret == PlainStep(g, nv.Logical(g), e.call).1.ret
  {
    hide Programmed, MayStep, PlainStep, Storable, CanLeaveTrace, Nv.Logical;
    if Traceless(g, nv, e, nv') {
      TracelessRefines(g, nv, e, nv');
    } else {
      RejectionKeepsIff(g, nv, e.call);
    }
  }

  lemma StepRefinesWrite(g: Geometry, nv: Nv, e: Event, nv': Nv)
    requires nv.Valid(g) && e.call.Write? && MayWrite(g, nv, e.call, e.out, nv') && nv'.Valid(g)
    requires Traceless(g, nv, e, nv') && Storable(g, nv.Logical(g), e.call)
    ensures nv'.Logical(g) == if e.out.ret == RET_OK then PlainStep(g, nv.Logical(g), e.call).0 else nv.Logical(g)
  {
    hide Programmed;
    var data := e.call.data;
    if RangeCheck(g, e.call.page, e.call.pos, |data|, e.call.isNull) != RET_OK || 0 < |data| < 4 {
    } else {
      PageFits(g, e.call.page, e.call.pos, |data|);
      var addr := g.Base(e.call.page) + e.call.pos;
      assert g.kind == Overwrite || g.kind == Nor;
      assert Programmed(g.kind, nv.Logical(g), addr, data) == Programmed(Overwrite, nv.Logical(g), addr, data);
      if data == [] {
        assert data[..0] == data;
        ProgrammedNothing(Overwrite, nv.Logical(g), addr, data);
      } else if Continues(g, nv, e.call.page, e.call.pos, |data|) {
        ContinuedLogical(g, nv, data);
      } else if CommitFailed(g, nv, nv') && e.out.ret == RET_ERROR {
        FailedCommitKeepsLogical(g, nv, nv');
      } else if |data| > g.cacheSize {
        assert data[..|data|] == data;
        EmptyCacheLogical(g, nv');
      }
    }
  }

  /**
    Runs with any number of flash failures: as long as each failure leaves no trace, the logical
    contents are at every call boundary those of the plain array that ran the accepted calls,
    and every successful read returns the plain array's bytes.
   */
  lemma {:induction false} FaultyRunRefinesPlain(g: Geometry, s: seq<Nv>, evs: seq<Event>)
    requires Run(g, s, evs)
    requires forall i :: 0 <= i < |evs| ==> LeavesNoTrace(g, s[i], evs[i], s[i + 1])
    requires forall i :: 0 <= i < |evs| ==> Storable(g, PlainAfter(g, s[0].Logical(g), evs[..i]), evs[i].call)
    ensures s[|evs|].Valid(g) && s[|evs|].Logical(g) == PlainAfter(g, s[0].Logical(g), evs)
    ensures forall i :: 0 <= i < |evs| && evs[i].out.ret == RET_OK ==>
              evs[i].out.bytes == PlainStep(g, PlainAfter(g, s[0].Logical(g), evs[..i]), evs[i].call).1.bytes
  {
    hide Programmed, Filled, PlainStep, MayStep, Storable, LeavesNoTrace;
    if evs != [] {
      var n := |evs| - 1;
      assert forall i :: 0 <= i <= n ==> evs[..n][..i] == evs[..i];
      FaultyRunRefinesPlain(g, s[..n + 1], evs[..n]);
      StepRefines(g, s[n], evs[n], s[n + 1]);
    }
  }

  // ---------- What any call leaves, failures included ----------

  /**
    What a call leaves for readers: the effect of the call, nothing, the first `k` bytes of a long
    write, or a wiped page under the `pending` data at `addr` that the failed commit kept.
   */
  datatype Trace =
    | Effect
    | Nothing
    | Prefix(k: nat)
    | WipedUnderCache(addr: nat, pending: seq<byte>)

  predicate MayLeave(g: Geometry, e: Event, t: Trace) {
    match t
    case Effect => e.out.ret == RET_OK
    case Nothing => e.out.ret != RET_OK
    case Prefix(k) =>
      && e.out.ret == RET_ERROR && e.call.Write? && g.cacheSize < |e.call.data| && k <= |e.call.data|
      && g.InPage(e.call.page, e.call.pos, |e.call.data|)
      && StopsAt(g.writeBlock, g.Base(e.call.page) + e.call.pos, |e.call.data|, k)
    case WipedUnderCache(addr, pending) =>
      && e.out.ret == RET_ERROR && e.call.Erase? && e.call.page < g.pageCount
      && addr + |pending| <= g.Base(g.pageCount) && 0 < |pending| <= g.cacheSize
  }

  function Left(g: Geometry, mem: seq<byte>, e: Event, t: Trace): (r: seq<byte>)
    requires g.Valid() && g.Base(g.pageCount) <= |mem| && MayLeave(g, e, t)
    ensures |r| == |mem|
  {
    match t
    case Effect => DeviceStep(g, mem, e)
    case Nothing => mem
    case Prefix(k) =>
      PageFits(g, e.call.page, e.call.pos, |e.call.data|);
      Programmed(g.kind, mem, g.Base(e.call.page) + e.call.pos, e.call.data[..k])
    case WipedUnderCache(addr, pending) => Programmed(g.kind, Wiped(g, mem, e.call.page), addr, pending)
  }

  /** A page wiped after a commit that stopped at any byte looks as if the commit had been complete. */
  lemma WipedAfterFailedCommit(g: Geometry, flash: seq<byte>, addr: nat, pending: seq<byte>, k: nat, page: nat)
    requires g.Valid() && g.Base(g.pageCount) <= |flash| && addr + |pending| <= |flash| && k <= |pending|
    ensures Programmed(g.kind, Wiped(g, Programmed(g.kind, flash, addr, pending[..k]), page), addr, pending)
         == Programmed(g.kind, Wiped(g, Programmed(g.kind, flash, addr, pending), page), addr, pending)
  {
    var part, whole := Programmed(g.kind, flash, addr, pending[..k]), Programmed(g.kind, flash, addr, pending);
    forall i | 0 <= i < |flash|
      ensures Programmed(g.kind, Wiped(g, part, page), addr, pending)[i]
           == Programmed(g.kind, Wiped(g, whole, page), addr, pending)[i]
    {
      WipedAt(g, part, page, i);
      WipedAt(g, whole, page, i);
      if addr <= i < addr + |pending| {
        ProgramFacts(g.kind, flash[i], pending[i - addr]);
      }
      hide Wiped, Program;
    }
  }

  lemma WipedAt(g: Geometry, flash: seq<byte>, page: nat, i: nat)
    requires g.Base(g.pageCount) <= |flash| && i < |flash|
    ensures Wiped(g, flash, page)[i]
         == if page < g.pageCount && g.Base(page) <= i < g.Base(page) + g.pageLen then ERASED else flash[i]
  {
    if page < g.pageCount {
      PageFits(g, page, 0, g.pageLen);
    }
  }

  lemma FailedEraseLeaves(g: Geometry, nv: Nv, e: Event, nv': Nv) returns (t: Trace)
    requires nv.Valid(g) && e.call.Erase? && MayErase(g, nv, e.call, e.out, nv') && nv'.Valid(g)
    requires e.out.ret == RET_ERROR
    ensures MayLeave(g, e, t) && nv'.Logical(g) == Left(g, nv.Logical(g), e, t)
    ensures t.WipedUnderCache? ==> t == WipedUnderCache(nv.Addr(g), nv.pending)
  {
    hide Programmed, Wiped;
    t := Nothing;
    if nv' == nv.Committed(g) {
      EmptyCacheLogical(g, nv');
    } else {
      var mid :| CommitFailed(g, nv, mid) && (nv' == mid || nv' == mid.(flash := Wiped(g, mid.flash, e.call.page)));
      FailedCommitKeepsLogical(g, nv, mid);
      if nv' != mid {
        PageFits(g, nv.page, nv.pos, |nv.pending|);
        WipedSomewhere(g, mid.flash, e.call.page);
        var k: nat :| k <= |nv.pending| && StopsAt(g.writeBlock, nv.Addr(g), |nv.pending|, k)
                      && mid == nv.(flash := Programmed(g.kind, nv.flash, nv.Addr(g), nv.pending[..k]));
        WipedAfterFailedCommit(g, nv.flash, nv.Addr(g), nv.pending, k, e.call.page);
        t := WipedUnderCache(nv.Addr(g), nv.pending);
      }
    }
  }

  lemma WipedSomewhere(g: Geometry, flash: seq<byte>, page: nat)
    requires g.Base(g.pageCount) <= |flash|
    ensures Wiped(g, flash, page) != flash ==> page < g.pageCount
  {
  }

  lemma LongWriteLeaves(g: Geometry, nv: Nv, e: Event, nv': Nv) returns (t: Trace)
    requires nv.Valid(g) && e.call.Write? && nv'.Valid(g) && g.InPage(e.call.page, e.call.pos, |e.call.data|)
    requires g.Base(e.call.page) + e.call.pos + |e.call.data| <= |nv.flash| && |e.call.data| > g.cacheSize
    requires DirectWrite(g, nv.Committed(g), g.Base(e.call.page) + e.call.pos, e.call.data, e.out.ret == RET_OK, nv')
    requires e.out.ret == RET_OK || e.out.ret == RET_ERROR
    ensures MayLeave(g, e, t) && nv'.Logical(g) == Left(g, nv.Logical(g), e, t) && !t.WipedUnderCache?
  {
    hide Programmed;
    EmptyCacheLogical(g, nv');
    var data := e.call.data;
    var addr := g.Base(e.call.page) + e.call.pos;
    var k: nat :| k <= |data|
                  && (if e.out.ret == RET_OK then k == |data| else StopsAt(g.writeBlock, addr, |data|, k))
                  && nv' == nv.Committed(g).(flash := Programmed(g.kind, nv.Committed(g).flash, addr, data[..k]));
    assert data[..|data|] == data;
    t := if e.out.ret == RET_OK then Effect else Prefix(k);
  }

  lemma WriteLeaves(g: Geometry, nv: Nv, e: Event, nv': Nv) returns (t: Trace)
    requires nv.Valid(g) && e.call.Write? && MayWrite(g, nv, e.call, e.out, nv') && nv'.Valid(g)
    ensures MayLeave(g, e, t) && nv'.Logical(g) == Left(g, nv.Logical(g), e, t) && !t.WipedUnderCache?
  {
    hide Programmed, DirectWrite;
    var data := e.call.data;
    t := if e.out.ret == RET_OK then Effect else Nothing;
    if RangeCheck(g, e.call.page, e.call.pos, |data|, e.call.isNull) != RET_OK || |data| < 4 {
    } else {
      PageFits(g, e.call.page, e.call.pos, |data|);
      if Continues(g, nv, e.call.page, e.call.pos, |data|) {
        ContinuedLogical(g, nv, data);
      } else if CommitFailed(g, nv, nv') && e.out.ret == RET_ERROR {
        FailedCommitKeepsLogical(g, nv, nv');
      } else if |data| > g.cacheSize {
        t := LongWriteLeaves(g, nv, e, nv');
      }
    }
  }

  /** One call, whatever fails in it and whatever the flash: exactly what a reader sees afterwards. */
  lemma CallLeaves(g: Geometry, nv: Nv, e: Event, nv': Nv) returns (t: Trace)
    requires nv.Valid(g) && MayStep(g, nv, e.call, e.out, nv')
    ensures nv'.Valid(g) && MayLeave(g, e, t) && nv'.Logical(g) == Left(g, nv.Logical(g), e, t)
    ensures t.WipedUnderCache? ==> t == WipedUnderCache(nv.Addr(g), nv.pending)
    ensures e.call.Read? && e.out.ret == RET_OK ==> e.out.bytes == PlainStep(g, nv.Logical(g), e.call).1.bytes
  {
    hide Programmed, Filled;
    StepKeepsValid(g, nv, e.call, e.out, nv');
    if CommitFailed(g, nv, nv') {
      FailedCommitKeepsLogical(g, nv, nv');
    }
    if e.call.Write? {
      t := WriteLeaves(g, nv, e, nv');
    } else if e.call.Erase? && e.out.ret == RET_ERROR {
      t := FailedEraseLeaves(g, nv, e, nv');
    } else {
      t := if e.out.ret == RET_OK then Effect else Nothing;
      if nv'.pending == [] {
        EmptyCacheLogical(g, nv');
      }
      if e.call.Read? && e.out.ret == RET_OK {
        PageFits(g, e.call.page, e.call.pos, e.call.len);
        var addr := g.Base(e.call.page) + e.call.pos;
        assert nv'.flash[addr..][..e.call.len] == nv'.flash[addr..addr + e.call.len];
      }
    }
  }

  // ---------- When a rejected call changes nothing ----------

  /**
    The two kinds of calls that can be rejected and yet change what readers see: a write longer
    than the cache, if what comes before some operation of it differs from what is there; and an
    erase of a page that the cached data, written into the wiped page, do not restore.
   */
  ghost predicate CanLeaveTrace(g: Geometry, nv: Nv, c: Call)
    requires nv.Valid(g)
  {
    match c
    case Write(page, pos, data, isNull) =>
      && RangeCheck(g, page, pos, |data|, isNull) == RET_OK && 4 <= |data| && g.cacheSize < |data|
      && (PageFits(g, page, pos, |data|);
          exists k: nat :: k <= |data| && StopsAt(g.writeBlock, g.Base(page) + pos, |data|, k)
            && Programmed(g.kind, nv.Logical(g), g.Base(page) + pos, data[..k]) != nv.Logical(g))
    case Erase(page) =>
      && page < g.pageCount && nv.pending != []
      && (PageFits(g, nv.page, nv.pos, |nv.pending|);
          Programmed(g.kind, Wiped(g, nv.Logical(g), page), nv.Addr(g), nv.pending) != nv.Logical(g))
    case _ => false
  }

  ghost predicate RejectionKeeps(g: Geometry, nv: Nv, c: Call)
    requires nv.Valid(g)
  {
    forall out, nv' :: MayStep(g, nv, c, out, nv') && out.ret != RET_OK ==>
      nv'.Valid(g) && nv'.Logical(g) == nv.Logical(g)
  }

  /** The call was not one of those, or did no more than commit the cache. */
  ghost predicate LeavesNoTrace(g: Geometry, nv: Nv, e: Event, nv': Nv)
    requires nv.Valid(g)
  {
    e.out.ret == RET_ERROR && CanLeaveTrace(g, nv, e.call) ==> Traceless(g, nv, e, nv')
  }

  lemma RejectionKeepsOtherwise(g: Geometry, nv: Nv, c: Call, out: Outcome, nv': Nv)
    requires nv.Valid(g) && !CanLeaveTrace(g, nv, c) && MayStep(g, nv, c, out, nv') && out.ret != RET_OK
    ensures nv'.Valid(g) && nv'.Logical(g) == nv.Logical(g)
  {
    hide Programmed, Filled, StopsAt, Nv.Logical;
    var t := CallLeaves(g, nv, Event(c, out), nv');
    match t
    case Effect =>
    case Nothing =>
    case Prefix(k) =>
      PageFits(g, c.page, c.pos, |c.data|);
      RejectedLongWrite(g, nv, c, out, nv');
    case WipedUnderCache(_, _) =>
  }

  lemma RejectedLongWrite(g: Geometry, nv: Nv, c: Call, out: Outcome, nv': Nv)
    requires nv.Valid(g) && c.Write? && MayWrite(g, nv, c, out, nv') && out.ret == RET_ERROR
    ensures RangeCheck(g, c.page, c.pos, |c.data|, c.isNull) == RET_OK && 4 <= |c.data|
  {
    hide Programmed, DirectWrite, CommitFailed;
  }

  /** The first operation of a write may fail. */
  lemma StopsAtOnce(block: nat, off: nat, len: nat)
    requires len > 0
    ensures StopsAt(block, off, len, 0)
  {
  }

  lemma LongWriteTrace(g: Geometry, nv: Nv, c: Call) returns (out: Outcome, nv': Nv)
    requires nv.Valid(g) && c.Write? && CanLeaveTrace(g, nv, c)
    ensures MayStep(g, nv, c, out, nv') && out.ret == RET_ERROR
    ensures nv'.Valid(g) && nv'.Logical(g) != nv.Logical(g)
  {
    hide Programmed, StopsAt;
    PageFits(g, c.page, c.pos, |c.data|);
    var addr := g.Base(c.page) + c.pos;
    var k: nat :| k <= |c.data| && StopsAt(g.writeBlock, addr, |c.data|, k)
                  && Programmed(g.kind, nv.Logical(g), addr, c.data[..k]) != nv.Logical(g);
    nv' := nv.Committed(g).(flash := Programmed(g.kind, nv.Committed(g).flash, addr, c.data[..k]));
    out := Outcome(RET_ERROR, [], true);
    assert DirectWrite(g, nv.Committed(g), addr, c.data, false, nv');
    assert MayWrite(g, nv, c, out, nv');
    EmptyCacheLogical(g, nv');
  }

  lemma EraseTrace(g: Geometry, nv: Nv, c: Call) returns (out: Outcome, nv': Nv)
    requires nv.Valid(g) && c.Erase? && CanLeaveTrace(g, nv, c)
    ensures MayStep(g, nv, c, out, nv') && out.ret == RET_ERROR
    ensures nv'.Valid(g) && nv'.Logical(g) != nv.Logical(g)
  {
    hide Programmed, StopsAt, Wiped;
    PageFits(g, nv.page, nv.pos, |nv.pending|);
    StopsAtOnce(g.writeBlock, nv.Addr(g), |nv.pending|);
    var mid := nv.(flash := Programmed(g.kind, nv.flash, nv.Addr(g), nv.pending[..0]));
    nv' := mid.(flash := Wiped(g, mid.flash, c.page));
    out := Outcome(RET_ERROR, [], true);
    assert CommitFailed(g, nv, mid);
    assert MayErase(g, nv, c, out, nv');
    WipedAfterFailedCommit(g, nv.flash, nv.Addr(g), nv.pending, 0, c.page);
  }

  /** A rejected call changes nothing that a reader sees, exactly if it is of neither kind. */
  lemma RejectionKeepsIff(g: Geometry, nv: Nv, c: Call)
    requires nv.Valid(g)
    ensures RejectionKeeps(g, nv, c) <==> !CanLeaveTrace(g, nv, c)
  {
    hide Programmed, CanLeaveTrace, MayStep, Nv.Logical;
    if CanLeaveTrace(g, nv, c) {
      TraceIsLeft(g, nv, c);
    } else {
      forall out, nv' | MayStep(g, nv, c, out, nv') && out.ret != RET_OK
        ensures nv'.Valid(g) && nv'.Logical(g) == nv.Logical(g)
      {
        RejectionKeepsOtherwise(g, nv, c, out, nv');
      }
    }
  }

  lemma TraceIsLeft(g: Geometry, nv: Nv, c: Call)
    requires nv.Valid(g) && CanLeaveTrace(g, nv, c)
    ensures !RejectionKeeps(g, nv, c)
  {
    CanLeaveKinds(g, nv, c);
    hide Programmed, CanLeaveTrace, MayStep, Nv.Logical;
    if c.Write? {
      var out, nv' := LongWriteTrace(g, nv, c);
    } else {
      var out, nv' := EraseTrace(g, nv, c);
    }
  }

  lemma CanLeaveKinds(g: Geometry, nv: Nv, c: Call)
    requires nv.Valid(g) && CanLeaveTrace(g, nv, c)
    ensures c.Write? || c.Erase?
  {
  }

  /** Programming the first `k` bytes changes one of them, if it changes anything. */
  predicate ShowsBefore(kind: Kind, mem: seq<byte>, addr: nat, data: seq<byte>, k: nat)
    requires k <= |data| && addr + |data| <= |mem|
  {
    exists i :: 0 <= i < k && Program(kind, mem[addr + i], data[i]) != mem[addr + i]
  }

  lemma PrefixShowsIff(kind: Kind, mem: seq<byte>, addr: nat, data: seq<byte>, k: nat)
    requires k <= |data| && addr + |data| <= |mem|
    ensures Programmed(kind, mem, addr, data[..k]) != mem <==> ShowsBefore(kind, mem, addr, data, k)
  {
    var after := Programmed(kind, mem, addr, data[..k]);
    hide Program;
    if i :| 0 <= i < k && Program(kind, mem[addr + i], data[i]) != mem[addr + i] {
      assert after[addr + i] == Program(kind, mem[addr + i], data[i]);
    }
    if after != mem {
      var j :| 0 <= j < |mem| && after[j] != mem[j];
      assert mem[addr + (j - addr)] == mem[j];
    }
  }

  /** Of the points where a write can stop, the last one shows the most. */
  lemma SomeStopShowsIff(kind: Kind, block: nat, mem: seq<byte>, addr: nat, data: seq<byte>)
    requires data != [] && addr + |data| <= |mem|
    ensures LastStop(block, addr, |data|) < |data|
    ensures (exists k: nat :: k <= |data| && StopsAt(block, addr, |data|, k)
               && Programmed(kind, mem, addr, data[..k]) != mem)
       <==> ShowsBefore(kind, mem, addr, data, LastStop(block, addr, |data|))
  {
    var last := LastStop(block, addr, |data|);
    LastStopIsLast(block, addr, |data|);
    StopsInside(block, addr, |data|, last);
    hide StopsAt, LastStop, Programmed, Program;
    forall k: nat | k <= |data|
      ensures Programmed(kind, mem, addr, data[..k]) != mem <==> ShowsBefore(kind, mem, addr, data, k)
    {
      PrefixShowsIff(kind, mem, addr, data, k);
    }
  }

  /** The condition for a long write, byte by byte: those before its last operation. */
  lemma LongWriteTraceIff(g: Geometry, nv: Nv, page: nat, pos: nat, data: seq<byte>)
    requires nv.Valid(g) && g.InPage(page, pos, |data|) && 4 <= |data| && g.cacheSize < |data|
    requires g.Base(page) + pos + |data| <= |nv.Logical(g)|
    ensures LastStop(g.writeBlock, g.Base(page) + pos, |data|) < |data|
    ensures CanLeaveTrace(g, nv, Write(page, pos, data, false))
       <==> ShowsBefore(g.kind, nv.Logical(g), g.Base(page) + pos, data,
                        LastStop(g.writeBlock, g.Base(page) + pos, |data|))
  {
    hide StopsAt, LastStop, Nv.Logical, Programmed, ShowsBefore, Program;
    SomeStopShowsIff(g.kind, g.writeBlock, nv.Logical(g), g.Base(page) + pos, data);
  }

  function CachedOrErased(g: Geometry, nv: Nv, i: nat): byte {
    if nv.Addr(g) <= i < nv.Addr(g) + |nv.pending| then nv.pending[i - nv.Addr(g)] else ERASED
  }

  /** And for an erase: the page holds more than the cached data in erased cells. */
  lemma EraseTraceIff(g: Geometry, nv: Nv, page: nat)
    requires nv.Valid(g) && page < g.pageCount && nv.pending != []
    requires g.Base(page) + g.pageLen <= |nv.Logical(g)|
    ensures CanLeaveTrace(g, nv, Erase(page))
       <==> exists i :: g.Base(page) <= i < g.Base(page) + g.pageLen
              && nv.Logical(g)[i] != CachedOrErased(g, nv, i)
  {
    var mem, addr, pending := nv.Logical(g), nv.Addr(g), nv.pending;
    PageFits(g, nv.page, nv.pos, |pending|);
    var back := Programmed(g.kind, Wiped(g, mem, page), addr, pending);
    forall i | 0 <= i < |mem|
      ensures back[i] == if g.Base(page) <= i < g.Base(page) + g.pageLen then CachedOrErased(g, nv, i) else mem[i]
    {
      WipedAt(g, mem, page, i);
      if addr <= i < addr + |pending| {
        ProgramFacts(g.kind, nv.flash[i], pending[i - addr]);
      }
    }
    hide Wiped, Programmed, Nv.Logical;
    if back != mem {
      var i :| 0 <= i < |mem| && back[i] != mem[i];
    }
  }

  /** Five bytes in an erased page, past a cache of four: the first block may be all that is written. */
  lemma LongWriteExample(flash: seq<byte>)
    requires |flash| == PHYSICAL_PAGE_SIZE && forall i :: 0 <= i < |flash| ==> flash[i] == ERASED
    ensures Nv(flash, 0, 0, []).Valid(Geometry(Overwrite, 4, PHYSICAL_PAGE_SIZE, 1, 4))
    ensures CanLeaveTrace(Geometry(Overwrite, 4, PHYSICAL_PAGE_SIZE, 1, 4), Nv(flash, 0, 0, []),
                          Write(0, 0, [0, 0, 0, 0, 0], false))
  {
    var g, nv, data := Geometry(Overwrite, 4, PHYSICAL_PAGE_SIZE, 1, 4), Nv(flash, 0, 0, []), [0, 0, 0, 0, 0];
    EmptyCacheLogical(g, nv);
    assert StopsAt(4, 0, 5, 4);
    assert Programmed(Overwrite, flash, 0, data[..4])[0] == 0;
  }

  /** Four cached bytes, and their page erased after the commit failed. */
  lemma EraseExample(flash: seq<byte>)
    requires |flash| == PHYSICAL_PAGE_SIZE && forall i :: 0 <= i < |flash| ==> flash[i] == 0
    ensures Nv(flash, 0, 0, [0, 0, 0, 0]).Valid(Geometry(Overwrite, 4, PHYSICAL_PAGE_SIZE, 1, 4))
    ensures CanLeaveTrace(Geometry(Overwrite, 4, PHYSICAL_PAGE_SIZE, 1, 4), Nv(flash, 0, 0, [0, 0, 0, 0]), Erase(0))
  {
    var g, nv := Geometry(Overwrite, 4, PHYSICAL_PAGE_SIZE, 1, 4), Nv(flash, 0, 0, [0, 0, 0, 0]);
    PageFits(g, 0, 0, 4);
    WipedAt(g, nv.Logical(g), 0, 4);
    assert Programmed(Overwrite, Wiped(g, nv.Logical(g), 0), 0, nv.pending)[4] == ERASED;
    assert nv.Logical(g)[4] == 0;
  }

  ghost function SeenAfter(g: Geometry, mem: seq<byte>, evs: seq<Event>, ts: seq<Trace>): (r: seq<byte>)
    requires g.Valid() && g.Base(g.pageCount) <= |mem|
    requires |ts| == |evs| && forall i :: 0 <= i < |evs| ==> MayLeave(g, evs[i], ts[i])
    ensures |r| == |mem|
  {
    if evs == [] then mem
    else Left(g, SeenAfter(g, mem, evs[..|evs| - 1], ts[..|evs| - 1]), evs[|evs| - 1], ts[|evs| - 1])
  }

  /**
    Every run, with any flash failures in any calls, on either kind of flash: the contents that
    readers see are those that the calls left one after the other.
   */
  lemma {:induction false} EveryRunShows(g: Geometry, s: seq<Nv>, evs: seq<Event>) returns (ts: seq<Trace>)
    requires Run(g, s, evs)
    ensures |ts| == |evs| && forall i :: 0 <= i < |evs| ==> MayLeave(g, evs[i], ts[i])
    ensures s[|evs|].Valid(g) && s[|evs|].Logical(g) == SeenAfter(g, s[0].Logical(g), evs, ts)
    ensures forall i :: 0 <= i < |evs| && ts[i].WipedUnderCache? ==>
              ts[i] == WipedUnderCache(s[i].Addr(g), s[i].pending)
    ensures forall i :: 0 <= i < |evs| && evs[i].call.Read? && evs[i].out.ret == RET_OK ==>
              evs[i].out.bytes == PlainStep(g, SeenAfter(g, s[0].Logical(g), evs[..i], ts[..i]), evs[i].call).1.bytes
  {
    hide Programmed, Filled, MayStep, Left, PlainStep, MayLeave, Nv.Logical;
    if evs == [] {
      ts := [];
    } else {
      var n := |evs| - 1;
      var before := EveryRunShows(g, s[..n + 1], evs[..n]);
      var t := CallLeaves(g, s[n], evs[n], s[n + 1]);
      ts := before + [t];
      assert ts[..n] == before;
      hide SeenAfter;
      assert forall i :: 0 <= i <= n ==> evs[..n][..i] == evs[..i] && before[..i] == ts[..i];
    }
  }

  /** The plain version run on every call, whatever the driver answered. */
  ghost function PlainRun(g: Geometry, mem: seq<byte>, evs: seq<Event>): (r: seq<byte>)
    requires g.Valid() && g.Base(g.pageCount) <= |mem|
    ensures |r| == |mem|
  {
    if evs == [] then mem
    else PlainStep(g, PlainRun(g, mem, evs[..|evs| - 1]), evs[|evs| - 1].call).0
  }

  /** An odd call gets a different answer whatever the plain array holds. */
  lemma OddNeverAgrees(g: Geometry, nv: Nv, e: Event, nv': Nv, mem: seq<byte>)
    requires nv.Valid(g) && MayStep(g, nv, e.call, e.out, nv') && Odd(g, e.call)
    requires g.Base(g.pageCount) <= |mem|
    ensures e.out.ret == RET_INVALID_PARAMETER_4 && PlainStep(g, mem, e.call).1.ret == RET_OK
  {
    hide Programmed, Filled;
  }

  lemma StepAgrees(g: Geometry, nv: Nv, e: Event, nv': Nv)
    requires nv.Valid(g) && MayStep(g, nv, e.call, e.out, nv') && !e.out.faulted && !Odd(g, e.call)
    requires Storable(g, nv.Logical(g), e.call)
    ensures nv'.Valid(g) && (nv'.Logical(g), e.out) == PlainStep(g, nv.Logical(g), e.call)
  {
    hide Programmed, Filled;
    StepRefines(g, nv, e, nv');
    var plain := PlainStep(g, nv.Logical(g), e.call);
    assert e.out.ret == plain.1.ret;
    assert e.out.ret != RET_OK ==> plain.0 == nv.Logical(g) && plain.1.bytes == e.out.bytes;
  }

  /** The driver and the plain array answered every call of the run alike. */
  ghost predicate Agree(g: Geometry, mem: seq<byte>, evs: seq<Event>)
    requires g.Valid() && g.Base(g.pageCount) <= |mem|
  {
    forall i :: 0 <= i < |evs| ==> AgreesAt(g, mem, evs, i)
  }

  ghost predicate AgreesAt(g: Geometry, mem: seq<byte>, evs: seq<Event>, i: nat)
    requires g.Valid() && g.Base(g.pageCount) <= |mem| && i < |evs|
  {
    evs[i].out == PlainStep(g, PlainRun(g, mem, evs[..i]), evs[i].call).1
  }

  lemma LogicalFits(g: Geometry, nv: Nv)
    requires nv.Valid(g)
    ensures g.Valid() && g.Base(g.pageCount) <= |nv.Logical(g)|
  {
    hide Programmed;
  }

  lemma AgreeOnNothing(g: Geometry, mem: seq<byte>)
    requires g.Valid() && g.Base(g.pageCount) <= |mem|
    ensures Agree(g, mem, [])
  {
  }

  lemma AgreeOneMore(g: Geometry, mem: seq<byte>, evs: seq<Event>)
    requires g.Valid() && g.Base(g.pageCount) <= |mem| && evs != []
    ensures Agree(g, mem, evs) <==>
              Agree(g, mem, evs[..|evs| - 1]) && AgreesAt(g, mem, evs, |evs| - 1)
  {
    var n := |evs| - 1;
    forall i | 0 <= i < n ensures AgreesAt(g, mem, evs[..n], i) == AgreesAt(g, mem, evs, i) {
      AgreesInPrefix(g, mem, evs, n, i);
    }
    hide PlainStep, PlainRun, AgreesAt;
  }

  lemma AgreesInPrefix(g: Geometry, mem: seq<byte>, evs: seq<Event>, n: nat, i: nat)
    requires g.Valid() && g.Base(g.pageCount) <= |mem| && i < n <= |evs|
    ensures AgreesAt(g, mem, evs[..n], i) == AgreesAt(g, mem, evs, i)
  {
    hide PlainStep, PlainRun;
    assert evs[..n][..i] == evs[..i];
  }

  /**
    Runs without flash failures: the two versions give the same answers to the same calls
    exactly when no call is an in-range read of length 0 or an in-range write of 1 to 3 bytes.
   */
  lemma {:induction false} RunAgreesIffNoOddCall(g: Geometry, s: seq<Nv>, evs: seq<Event>)
    requires Run(g, s, evs)
    requires forall i :: 0 <= i < |evs| ==> !evs[i].out.faulted
    requires forall i :: 0 <= i < |evs| ==> Storable(g, PlainRun(g, s[0].Logical(g), evs[..i]), evs[i].call)
    ensures Agree(g, s[0].Logical(g), evs) <==> forall i :: 0 <= i < |evs| ==> !Odd(g, evs[i].call)
    ensures Agree(g, s[0].Logical(g), evs) ==>
              s[|evs|].Valid(g) && s[|evs|].Logical(g) == PlainRun(g, s[0].Logical(g), evs)
  {
    hide Programmed, Filled, PlainStep, MayStep, Odd, Storable, Agree, Nv.Logical;
    LogicalFits(g, s[0]);
    if evs == [] {
      AgreeOnNothing(g, s[0].Logical(g));
    } else {
      var n := |evs| - 1;
      var mem := s[0].Logical(g);
      assert forall i :: 0 <= i <= n ==> evs[..n][..i] == evs[..i];
      RunAgreesIffNoOddCall(g, s[..n + 1], evs[..n]);
      AgreeOneMore(g, mem, evs);
      if Odd(g, evs[n].call) {
        OddNeverAgrees(g, s[n], evs[n], s[n + 1], PlainRun(g, mem, evs[..n]));
      } else if Agree(g, mem, evs[..n]) {
        StepAgrees(g, s[n], evs[n], s[n + 1]);
      }
    }
  }
}
