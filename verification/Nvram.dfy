/**
  The NVRAM driver with its write-back cache (zb_nrf_nvram.c), as a class over the flash
  device, and the transition relation that its methods are proved against.
 */
module Nvram {
  import opened Basics
  import opened Flash
  import opened BlockWrite

  const PHYSICAL_PAGE_SIZE: nat := 0x1000

  datatype Ret =
    | RET_OK
    | RET_ERROR
    | RET_PAGE_NOT_FOUND
    | RET_INVALID_PARAMETER
    | RET_INVALID_PARAMETER_3
    | RET_INVALID_PARAMETER_4

  /** The device and the build-time configuration; `cacheSize` 0 is the driver built without the cache. */
  datatype Geometry = Geometry(kind: Kind, writeBlock: nat, pageLen: nat, pageCount: nat, cacheSize: nat) {
    ghost predicate Valid() {
      pageLen > 0 && pageLen % PHYSICAL_PAGE_SIZE == 0 && pageCount > 0 && cacheSize <= pageLen
    }

    function Base(page: nat): nat {
      page * pageLen
    }

    predicate InPage(page: nat, pos: nat, len: nat) {
      page < pageCount && pos + len <= pageLen
    }
  }

  /** Contents of the flash and of the cache: `pending` waits to be written at `pos` of `page`. */
  datatype Nv = Nv(flash: seq<byte>, page: nat, pos: nat, pending: seq<byte>) {
    ghost predicate Valid(g: Geometry) {
      && g.Valid()
      && g.Base(g.pageCount) <= |flash|
      && g.InPage(page, pos, |pending|)
      && |pending| <= g.cacheSize
    }

    function Addr(g: Geometry): nat {
      g.Base(page) + pos
    }

    /** What a reader sees: the flash overlaid with the cache. */
    function Logical(g: Geometry): seq<byte>
      requires Valid(g)
    {
      PageFits(g, page, pos, |pending|);
      Programmed(g.kind, flash, Addr(g), pending)
    }

    /** The cache reached the flash. */
    function Committed(g: Geometry): (r: Nv)
      requires Valid(g)
      ensures r.Valid(g)
    {
      this.(flash := Logical(g), pending := [])
    }
  }

  lemma PageFits(g: Geometry, page: nat, pos: nat, len: nat)
    requires g.InPage(page, pos, len)
    ensures g.Base(page) + pos + len <= g.Base(page) + g.pageLen <= g.Base(g.pageCount)
  {
    assert (page + 1) * g.pageLen <= g.pageCount * g.pageLen;
  }

  // A call carries its buffer as a length or as data; `isNull` says that the pointer was NULL.
  datatype Call =
    | Read(page: nat, pos: nat, len: nat, isNull: bool)
    | Write(page: nat, pos: nat, data: seq<byte>, isNull: bool)
    | Erase(page: nat)
    | Flush

  /** The return code, the bytes read, and whether a flash operation failed during the call. */
  datatype Outcome = Outcome(ret: Ret, bytes: seq<byte>, faulted: bool)

  /** The parameter checks shared by read and write. */
  function RangeCheck(g: Geometry, page: nat, pos: nat, len: nat, isNull: bool): Ret {
    if page >= g.pageCount then RET_PAGE_NOT_FOUND
    else if pos + len > g.pageLen then RET_INVALID_PARAMETER
    else if isNull then RET_INVALID_PARAMETER_3
    else RET_OK
  }

  predicate Continues(g: Geometry, nv: Nv, page: nat, pos: nat, len: nat) {
    nv.pending != [] && nv.page == page && pos == nv.pos + |nv.pending| && |nv.pending| + len <= g.cacheSize
  }

  /** A commit that failed: the part of the cache before the operation that failed reached the flash. */
  ghost predicate CommitFailed(g: Geometry, nv: Nv, nv': Nv)
    requires nv.Valid(g)
  {
    PageFits(g, nv.page, nv.pos, |nv.pending|);
    && nv.pending != []
    && exists k: nat :: k <= |nv.pending| && StopsAt(g.writeBlock, nv.Addr(g), |nv.pending|, k)
         && nv' == nv.(flash := Programmed(g.kind, nv.flash, nv.Addr(g), nv.pending[..k]))
  }

  /** A write longer than the cache goes to the flash directly; a failure leaves the part before it there. */
  ghost predicate DirectWrite(g: Geometry, nv: Nv, addr: nat, data: seq<byte>, ok: bool, nv': Nv)
    requires addr + |data| <= |nv.flash|
  {
    exists k: nat :: k <= |data| && (if ok then k == |data| else StopsAt(g.writeBlock, addr, |data|, k))
      && nv' == nv.(flash := Programmed(g.kind, nv.flash, addr, data[..k]))
  }

  ghost predicate MayRead(g: Geometry, nv: Nv, c: Call, out: Outcome, nv': Nv)
    requires nv.Valid(g) && c.Read?
  {
    var check := RangeCheck(g, c.page, c.pos, c.len, c.isNull);
    var code := if check == RET_OK && c.len == 0 then RET_INVALID_PARAMETER_4 else check;
    if code != RET_OK then
      nv' == nv && out == Outcome(code, [], false)
    else
      PageFits(g, c.page, c.pos, c.len);
      var addr := g.Base(c.page) + c.pos;
      || (CommitFailed(g, nv, nv') && out == Outcome(RET_ERROR, [], true))
      || (nv' == nv.Committed(g) && out in {
            Outcome(RET_OK, nv'.flash[addr..addr + c.len], false), Outcome(RET_ERROR, [], true)})
  }

  ghost predicate MayWrite(g: Geometry, nv: Nv, c: Call, out: Outcome, nv': Nv)
    requires nv.Valid(g) && c.Write?
  {
    var len := |c.data|;
    var check := RangeCheck(g, c.page, c.pos, len, c.isNull);
    var code := if check == RET_OK && 0 < len < 4 then RET_INVALID_PARAMETER_4 else check;
    if code != RET_OK || len == 0 then
      nv' == nv && out == Outcome(code, [], false)
    else if Continues(g, nv, c.page, c.pos, len) then
      nv' == nv.(pending := nv.pending + c.data) && out == Outcome(RET_OK, [], false)
    else
      PageFits(g, c.page, c.pos, len);
      || (CommitFailed(g, nv, nv') && out == Outcome(RET_ERROR, [], true))
      || (if len > g.cacheSize then
            DirectWrite(g, nv.Committed(g), g.Base(c.page) + c.pos, c.data, out.ret == RET_OK, nv')
            && out in {Outcome(RET_OK, [], false), Outcome(RET_ERROR, [], true)}
          else
            nv' == nv.Committed(g).(page := c.page, pos := c.pos, pending := c.data)
            && out == Outcome(RET_OK, [], false))
  }

  function Wiped(g: Geometry, flash: seq<byte>, page: nat): (r: seq<byte>)
    requires g.Base(g.pageCount) <= |flash|
    ensures |r| == |flash|
  {
    if page >= g.pageCount then flash
    else PageFits(g, page, 0, g.pageLen); Filled(flash, g.Base(page), g.pageLen, ERASED)
  }

  /** The erase is attempted even when the commit before it failed. */
  ghost predicate MayErase(g: Geometry, nv: Nv, c: Call, out: Outcome, nv': Nv)
    requires nv.Valid(g) && c.Erase?
  {
    || (nv' == nv.Committed(g).(flash := Wiped(g, nv.Committed(g).flash, c.page)) && out == Outcome(RET_OK, [], false))
    || (c.page < g.pageCount && nv' == nv.Committed(g) && out == Outcome(RET_ERROR, [], true))
    || (out == Outcome(RET_ERROR, [], true) && exists mid ::
          CommitFailed(g, nv, mid) && (nv' == mid || nv' == mid.(flash := Wiped(g, mid.flash, c.page))))
  }

  /** Flush and wait-for-last-op: the caller is not told whether the commit worked. */
  ghost predicate MayFlush(g: Geometry, nv: Nv, out: Outcome, nv': Nv)
    requires nv.Valid(g)
  {
    || (nv' == nv.Committed(g) && out == Outcome(RET_OK, [], false))
    || (CommitFailed(g, nv, nv') && out == Outcome(RET_OK, [], true))
  }

  /** Everything that one call can do, flash failures included. */
  ghost predicate MayStep(g: Geometry, nv: Nv, c: Call, out: Outcome, nv': Nv)
    requires nv.Valid(g)
  {
    match c
    case Read(_, _, _, _) => MayRead(g, nv, c, out, nv')
    case Write(_, _, _, _) => MayWrite(g, nv, c, out, nv')
    case Erase(_) => MayErase(g, nv, c, out, nv')
    case Flush => MayFlush(g, nv, out, nv')
  }

  /** Every call, failing or not, keeps the cache inside one page and no longer than its buffer. */
  lemma StepKeepsValid(g: Geometry, nv: Nv, c: Call, out: Outcome, nv': Nv)
    requires nv.Valid(g) && MayStep(g, nv, c, out, nv')
    ensures nv'.Valid(g) && |nv'.flash| == |nv.flash|
  {
  }

  class NvramDriver {
    const g: Geometry
    const fa: FlashArea
    // The static write_cache structure.
    const data: array<byte>
    var page: nat
    var pos: nat
    var len: nat

    ghost predicate Valid()
      reads this, fa, data
    {
      && fa.Valid() && fa.kind == g.kind && fa.writeBlock == g.writeBlock
      && data.Length == g.cacheSize && len <= data.Length
      && Abs().Valid(g)
    }

    ghost function Abs(): Nv
      reads this, fa, data
      requires len <= data.Length
    {
      Nv(fa.cells, page, pos, data[..len])
    }

    constructor (g: Geometry, fa: FlashArea)
      requires g.Valid() && fa.Valid() && fa.kind == g.kind && fa.writeBlock == g.writeBlock
      requires g.Base(g.pageCount) <= |fa.cells|
      ensures Valid() && fresh(data) && this.g == g && this.fa == fa
      ensures Abs() == Nv(fa.cells, 0, 0, [])
    {
      this.g, this.fa := g, fa;
      data := new byte[g.cacheSize];
      page, pos, len := 0, 0, 0;
    }

    method WriteCacheCommit() returns (err: int)
      requires Valid()
      modifies this`len, fa
      ensures Valid()
      ensures err == 0 ==> Abs() == old(Abs()).Committed(g)
      ensures err != 0 ==> CommitFailed(g, old(Abs()), Abs())
      ensures fa.faults == old(fa.faults) + if err == 0 then 0 else 1
      ensures fa.misaligned == old(fa.misaligned)
    {
      hide Programmed, StopsAt;
      ghost var before := Abs();
      PageFits(g, page, pos, len);
      if len == 0 {
        ProgrammedNothing(g.kind, fa.cells, before.Addr(g), []);
        return 0;
      }
      ghost var done;
      err, done := NvramFlashWrite(fa, g.Base(page) + pos, data[..len]);
      if err != 0 {
        assert Abs() == before.(flash := Programmed(g.kind, before.flash, before.Addr(g), before.pending[..done]));
        return;
      }
      assert data[..len][..len] == data[..len];
      len := 0;
    }

    method WriteCacheContinues(page: nat, pos: nat, len: nat) returns (b: bool)
      requires Valid()
      ensures b == Continues(g, Abs(), page, pos, len)
    {
      b := this.len != 0 && this.page == page && pos == this.pos + this.len && this.len + len <= data.Length;
    }

    method AddToCache(buf: array<byte>, len: nat)
      requires len <= buf.Length && buf != data && this.len + len <= data.Length
      modifies this`len, data
      ensures this.len == old(this.len) + len
      ensures data[..this.len] == old(data[..this.len]) + buf[..len]
    {
      ghost var pending := data[..this.len];
      forall i | 0 <= i < len {
        data[this.len + i] := buf[i];
      }
      this.len := this.len + len;
      assert data[..this.len] == pending + buf[..len];
    }

    method WriteCacheAdd(page: nat, pos: nat, buf: array<byte>, len: nat) returns (err: int)
      requires Valid() && len <= buf.Length && buf != data && 4 <= len && g.InPage(page, pos, len)
      modifies this`page, this`pos, this`len, data, fa
      ensures Valid()
      ensures MayWrite(g, old(Abs()), Write(page, pos, buf[..len], false),
                Outcome(if err == 0 then RET_OK else RET_ERROR, [], fa.faults > old(fa.faults)), Abs())
      ensures fa.faults >= old(fa.faults) && fa.misaligned == old(fa.misaligned)
    {
      hide Programmed, StopsAt;
      ghost var before := Abs();
      PageFits(g, page, pos, len);
      var continues := WriteCacheContinues(page, pos, len);
      if !continues {
        err := WriteCacheCommit();
        if err != 0 {
          return;
        }
        if len > data.Length {
          ghost var done;
          ghost var mid := Abs();
          err, done := NvramFlashWrite(fa, g.Base(page) + pos, buf[..len]);
          assert Abs() == mid.(flash := Programmed(g.kind, mid.flash, g.Base(page) + pos, buf[..len][..done]));
          assert DirectWrite(g, before.Committed(g), g.Base(page) + pos, buf[..len], err == 0, Abs());
          return;
        }
        this.page, this.pos := page, pos;
      }
      AddToCache(buf, len);
      err := 0;
    }

    method OsifRead(page: nat, pos: nat, buf: array?<byte>, len: nat) returns (ret: Ret)
      requires Valid() && buf != data && (buf != null ==> len <= buf.Length)
      modifies this`len, fa, buf
      ensures Valid()
      ensures ret == RET_OK ==> buf != null
      ensures MayStep(g, old(Abs()), Read(page, pos, len, buf == null),
                Outcome(ret, if ret == RET_OK then buf[..len] else [], fa.faults > old(fa.faults)), Abs())
      ensures buf != null ==> buf[len..] == old(buf[len..])
      ensures buf != null && ret != RET_OK && ret != RET_ERROR ==> buf[..] == old(buf[..])
      ensures fa.faults >= old(fa.faults) && fa.misaligned == old(fa.misaligned)
    {
      if page >= g.pageCount {
        return RET_PAGE_NOT_FOUND;
      }
      if pos + len > g.pageLen {
        return RET_INVALID_PARAMETER;
      }
      if buf == null {
        return RET_INVALID_PARAMETER_3;
      }
      if len == 0 {
        return RET_INVALID_PARAMETER_4;
      }
      PageFits(g, page, pos, len);
      var addr := g.Base(page) + pos;
      var err := WriteCacheCommit();
      if err != 0 {
        return RET_ERROR;
      }
      var bytes;
      err, bytes := fa.Read(addr, len);
      forall i | 0 <= i < len {
        buf[i] := bytes[i];
      }
      if err != 0 {
        return RET_ERROR;
      }
      assert buf[..len] == fa.cells[addr..addr + len];
      return RET_OK;
    }

    method OsifWrite(page: nat, pos: nat, buf: array?<byte>, len: nat) returns (ret: Ret)
      requires Valid() && buf != data && (buf != null ==> len <= buf.Length)
      modifies this`page, this`pos, this`len, data, fa
      ensures Valid()
      ensures MayStep(g, old(Abs()),
                Write(page, pos, if buf == null then seq(len, _ => 0) else buf[..len], buf == null),
                Outcome(ret, [], fa.faults > old(fa.faults)), Abs())
      ensures fa.faults >= old(fa.faults) && fa.misaligned == old(fa.misaligned)
    {
      if page >= g.pageCount {
        return RET_PAGE_NOT_FOUND;
      }
      if pos + len > g.pageLen {
        return RET_INVALID_PARAMETER;
      }
      if buf == null {
        return RET_INVALID_PARAMETER_3;
      }
      if len == 0 {
        return RET_OK;
      }
      if len / 4 == 0 {
        return RET_INVALID_PARAMETER_4;
      }
      var err := WriteCacheAdd(page, pos, buf, len);
      if err != 0 {
        return RET_ERROR;
      }
      return RET_OK;
    }

    method OsifEraseAsync(page: nat) returns (ret: Ret)
      requires Valid()
      modifies this`len, fa
      ensures Valid()
      ensures MayStep(g, old(Abs()), Erase(page), Outcome(ret, [], fa.faults > old(fa.faults)), Abs())
      ensures fa.faults >= old(fa.faults) && fa.misaligned == old(fa.misaligned)
    {
      hide Programmed, Filled, StopsAt;
      ret := RET_OK;
      var err := WriteCacheCommit();
      if err != 0 {
        ret := RET_ERROR;
      }
      ghost var mid := Abs();
      if page < g.pageCount {
        PageFits(g, page, 0, g.pageLen);
        err := fa.Erase(g.Base(page), g.pageLen);
        if err != 0 {
          ret := RET_ERROR;
        }
        assert Abs() == mid || Abs() == mid.(flash := Wiped(g, mid.flash, page));
      }
    }

    method OsifFlush()
      requires Valid()
      modifies this`len, fa
      ensures Valid()
      ensures MayStep(g, old(Abs()), Flush, Outcome(RET_OK, [], fa.faults > old(fa.faults)), Abs())
      ensures fa.faults == old(fa.faults) ==> len == 0 && fa.cells == old(Abs()).Logical(g)
      ensures fa.faults >= old(fa.faults) && fa.misaligned == old(fa.misaligned)
    {
      var _ := WriteCacheCommit();
    }
  }
}
