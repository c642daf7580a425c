/**
  What the NVRAM calls answer, where their bytes are afterwards, and what a read returns: in
  terms of pages, offsets and the calls before, without the addresses of the flash.
 */
module NvramAnswers {
  import opened Basics
  import opened BlockWrite
  import opened Flash
  import opened Nvram
  import opened NvramRuns

  // ---------- Return codes ----------

  /** A read or write refused for its parameters touches neither the flash nor the cache. */
  lemma RefusedCall(g: Geometry, nv: Nv, c: Call, out: Outcome, nv': Nv)
    requires nv.Valid(g) && MayStep(g, nv, c, out, nv')
    requires out.ret != RET_OK && out.ret != RET_ERROR
    ensures nv' == nv && out.bytes == [] && !out.faulted
  {
    hide Programmed, StopsAt, Filled;
  }

  lemma ReadAnswers(g: Geometry, nv: Nv, c: Call, out: Outcome, nv': Nv)
    requires nv.Valid(g) && MayStep(g, nv, c, out, nv') && c.Read?
    ensures out.ret == RET_PAGE_NOT_FOUND <==> c.page >= g.pageCount
    ensures out.ret == RET_INVALID_PARAMETER <==> c.page < g.pageCount && c.pos + c.len > g.pageLen
    ensures out.ret == RET_INVALID_PARAMETER_3 <==> c.page < g.pageCount && c.pos + c.len <= g.pageLen && c.isNull
    ensures out.ret == RET_INVALID_PARAMETER_4 <==>
              c.page < g.pageCount && c.pos + c.len <= g.pageLen && !c.isNull && c.len == 0
    ensures out.ret == RET_ERROR <==> out.faulted
  {
    hide Nv.Logical, Programmed, StopsAt, CommitFailed;
  }

  lemma WriteAnswers(g: Geometry, nv: Nv, c: Call, out: Outcome, nv': Nv)
    requires nv.Valid(g) && MayStep(g, nv, c, out, nv') && c.Write?
    ensures out.ret == RET_PAGE_NOT_FOUND <==> c.page >= g.pageCount
    ensures out.ret == RET_INVALID_PARAMETER <==> c.page < g.pageCount && c.pos + |c.data| > g.pageLen
    ensures out.ret == RET_INVALID_PARAMETER_3 <==> c.page < g.pageCount && c.pos + |c.data| <= g.pageLen && c.isNull
    ensures out.ret == RET_INVALID_PARAMETER_4 <==>
              c.page < g.pageCount && c.pos + |c.data| <= g.pageLen && !c.isNull && 0 < |c.data| < 4
    ensures out.ret == RET_ERROR <==> out.faulted
    ensures out.bytes == []
  {
    hide Programmed, StopsAt;
  }

  lemma EraseAnswers(g: Geometry, nv: Nv, c: Call, out: Outcome, nv': Nv)
    requires nv.Valid(g) && MayStep(g, nv, c, out, nv') && (c.Erase? || c.Flush?)
    ensures out.ret == if c.Erase? && out.faulted then RET_ERROR else RET_OK
    ensures out.bytes == []
  {
    hide Programmed, StopsAt, Filled;
  }

  // ---------- Where the bytes are ----------

  /** The calls that leave nothing in the cache: all but a write that the cache has room for. */
  predicate Syncs(g: Geometry, c: Call) {
    match c
    case Read(page, pos, len, isNull) => g.InPage(page, pos, len) && !isNull && len > 0
    case Write(page, pos, data, isNull) => g.InPage(page, pos, |data|) && !isNull && |data| >= 4 && |data| > g.cacheSize
    case Erase(_) => true
    case Flush => true
  }

  /** Without a flash failure such a call brings the cache to the flash, and has its own effect there. */
  lemma SyncedCall(g: Geometry, nv: Nv, e: Event, nv': Nv)
    requires nv.Valid(g) && MayStep(g, nv, e.call, e.out, nv') && !e.out.faulted && Syncs(g, e.call)
    ensures e.out.ret == RET_OK && nv'.Valid(g) && nv'.pending == []
    ensures nv'.flash == DeviceStep(g, nv.Logical(g), e)
  {
    hide Programmed, StopsAt, Filled;
    if e.call.Write? {
      assert e.call.data[..|e.call.data|] == e.call.data;
    }
  }

  /** A flush that meets no flash failure: the flash then holds all that readers see. */
  lemma FlushCommits(g: Geometry, nv: Nv, out: Outcome, nv': Nv)
    requires nv.Valid(g) && MayStep(g, nv, Flush, out, nv') && !out.faulted
    ensures nv'.pending == [] && nv'.flash == nv.Logical(g)
  {
    hide Programmed;
    SyncedCall(g, nv, Event(Flush, out), nv');
  }

  /**
    A write that the cache has room for waits there: behind the cached bytes, with no flash
    operation, if it goes on where they end and fits, and alone, behind their commit, if not.
   */
  lemma GatheredWrite(g: Geometry, nv: Nv, c: Call, out: Outcome, nv': Nv)
    requires nv.Valid(g) && MayStep(g, nv, c, out, nv') && c.Write?
    requires g.InPage(c.page, c.pos, |c.data|) && !c.isNull && 4 <= |c.data| <= g.cacheSize
    ensures nv.pending != [] && nv.page == c.page && nv.pos + |nv.pending| == c.pos
              && |nv.pending| + |c.data| <= g.cacheSize ==>
                !out.faulted && nv'.flash == nv.flash && nv'.pending == nv.pending + c.data
                && nv'.page == nv.page && nv'.pos == nv.pos
    ensures !(nv.pending != [] && nv.page == c.page && nv.pos + |nv.pending| == c.pos
              && |nv.pending| + |c.data| <= g.cacheSize) && !out.faulted ==>
                nv' == Nv(nv.Logical(g), c.page, c.pos, c.data)
    ensures out.faulted ==> nv'.pending == nv.pending && nv'.page == nv.page && nv'.pos == nv.pos
  {
    hide Programmed, StopsAt;
  }

  // ---------- What a read returns ----------

  /** The byte that the last accepted call on this place put there: written, or erased. */
  function LastWritten(evs: seq<Event>, page: nat, pos: nat): Option<byte> {
    if evs == [] then None
    else
      var e, before := evs[|evs| - 1], LastWritten(evs[..|evs| - 1], page, pos);
      if e.out.ret != RET_OK then before
      else
        match e.call
        case Write(p, start, data, _) =>
          if p == page && start <= pos < start + |data| then Some(data[pos - start]) else before
        case Erase(p) => if p == page then Some(0xFF) else before
        case _ => before
  }

  /** Every accepted write is one inside its page. */
  predicate InRange(g: Geometry, e: Event) {
    e.out.ret == RET_OK && e.call.Write? ==> g.InPage(e.call.page, e.call.pos, |e.call.data|) && !e.call.isNull
  }

  /** Places of different pages are different. */
  lemma PlacesDiffer(g: Geometry, p: nat, i: nat, q: nat, j: nat)
    requires g.Valid() && i < g.pageLen && j < g.pageLen
    ensures g.Base(p) + i == g.Base(q) + j <==> p == q && i == j
  {
    if p < q {
      assert (p + 1) * g.pageLen <= q * g.pageLen;
    } else if q < p {
      assert (q + 1) * g.pageLen <= p * g.pageLen;
    }
  }

  /** What one accepted call of the plain version does to one place. */
  lemma PlainStepAt(g: Geometry, mem: seq<byte>, e: Event, page: nat, pos: nat)
    requires g.Valid() && g.Base(g.pageCount) <= |mem| && InRange(g, e) && e.out.ret == RET_OK
    requires g.InPage(page, pos, 1)
    ensures g.Base(page) + pos < |mem|
    ensures PlainStep(g, mem, e.call).0[g.Base(page) + pos]
         == match LastWritten([e], page, pos) case Some(b) => b case None => mem[g.Base(page) + pos]
  {
    PageFits(g, page, pos, 1);
    assert [e][..0] == [];
    match e.call
    case Write(p, start, data, _) =>
      PageFits(g, p, start, |data|);
      var i := g.Base(page) + pos - (g.Base(p) + start);
      if 0 <= i < |data| {
        PlacesDiffer(g, p, start + i, page, pos);
      }
      if p == page && start <= pos < start + |data| {
        PlacesDiffer(g, p, start, page, pos);
      }
    case Erase(p) =>
      WipedAt(g, mem, p, g.Base(page) + pos);
      var i := g.Base(page) + pos - g.Base(p);
      if 0 <= i < g.pageLen {
        PlacesDiffer(g, p, i, page, pos);
      }
    case _ =>
  }

  lemma {:induction false} PlainAt(g: Geometry, mem: seq<byte>, evs: seq<Event>, page: nat, pos: nat)
    requires g.Valid() && g.Base(g.pageCount) <= |mem| && forall i :: 0 <= i < |evs| ==> InRange(g, evs[i])
    requires g.InPage(page, pos, 1)
    ensures g.Base(page) + pos < |mem|
    ensures PlainAfter(g, mem, evs)[g.Base(page) + pos]
         == match LastWritten(evs, page, pos) case Some(b) => b case None => mem[g.Base(page) + pos]
  {
    hide PlainStep;
    PageFits(g, page, pos, 1);
    if evs != [] {
      var n := |evs| - 1;
      PlainAt(g, mem, evs[..n], page, pos);
      if evs[n].out.ret == RET_OK {
        assert [evs[n]][..0] == [];
        PlainStepAt(g, PlainAfter(g, mem, evs[..n]), evs[n], page, pos);
      }
    }
  }

  lemma StepInRange(g: Geometry, nv: Nv, e: Event, nv': Nv)
    requires nv.Valid(g) && MayStep(g, nv, e.call, e.out, nv')
    ensures InRange(g, e)
  {
    hide MayStep;
    if e.call.Write? {
      WriteAnswers(g, nv, e.call, e.out, nv');
    }
  }

  lemma ReadsPlain(g: Geometry, s: seq<Nv>, evs: seq<Event>, i: nat)
    requires Run(g, s, evs)
    requires forall j :: 0 <= j < |evs| ==> LeavesNoTrace(g, s[j], evs[j], s[j + 1])
    requires forall j :: 0 <= j < |evs| ==> Storable(g, PlainAfter(g, s[0].Logical(g), evs[..j]), evs[j].call)
    requires i < |evs| && evs[i].call.Read? && evs[i].out.ret == RET_OK
    ensures s[0].Valid(g) && g.InPage(evs[i].call.page, evs[i].call.pos, evs[i].call.len)
    ensures g.Base(evs[i].call.page) + evs[i].call.pos + evs[i].call.len <= |s[0].Logical(g)|
    ensures forall j :: 0 <= j < i ==> InRange(g, evs[..i][j])
    ensures evs[i].out.bytes
         == PlainAfter(g, s[0].Logical(g), evs[..i])[g.Base(evs[i].call.page) + evs[i].call.pos..][..evs[i].call.len]
  {
    hide MayStep, LeavesNoTrace, Storable, PlainAfter, Nv.Logical;
    var c := evs[i].call;
    assert MayStep(g, s[i], c, evs[i].out, s[i + 1]);
    ReadAnswers(g, s[i], c, evs[i].out, s[i + 1]);
    PageFits(g, c.page, c.pos, c.len);
    LogicalFits(g, s[0]);
    FaultyRunRefinesPlain(g, s, evs);
    forall j | 0 <= j < i ensures InRange(g, evs[..i][j]) {
      StepInRange(g, s[j], evs[j], s[j + 1]);
    }
  }

  /**
    In every run, flash failures included, each byte that a successful read returns is the one that
    the last accepted write or erase of its place put there, or what was there at the start.
   */
  lemma ReadsLastWritten(g: Geometry, s: seq<Nv>, evs: seq<Event>, i: nat, k: nat)
    requires Run(g, s, evs)
    requires forall j :: 0 <= j < |evs| ==> LeavesNoTrace(g, s[j], evs[j], s[j + 1])
    requires forall j :: 0 <= j < |evs| ==> Storable(g, PlainAfter(g, s[0].Logical(g), evs[..j]), evs[j].call)
    requires i < |evs| && evs[i].call.Read? && evs[i].out.ret == RET_OK && k < evs[i].call.len
    ensures |evs[i].out.bytes| == evs[i].call.len && g.InPage(evs[i].call.page, evs[i].call.pos, evs[i].call.len)
    ensures g.Base(evs[i].call.page) + evs[i].call.pos + k < |s[0].Logical(g)|
    ensures evs[i].out.bytes[k]
         == match LastWritten(evs[..i], evs[i].call.page, evs[i].call.pos + k)
            case Some(b) => b
            case None => s[0].Logical(g)[g.Base(evs[i].call.page) + evs[i].call.pos + k]
  {
    hide MayStep, LeavesNoTrace, Storable, PlainAfter, LastWritten, Nv.Logical, PlainStep;
    var c := evs[i].call;
    ReadsPlain(g, s, evs, i);
    LogicalFits(g, s[0]);
    PageFits(g, c.page, c.pos, c.len);
    PlainAt(g, s[0].Logical(g), evs[..i], c.page, c.pos + k);
  }
}
