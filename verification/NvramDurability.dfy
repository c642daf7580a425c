/**
  The order in which accepted NVRAM calls reach the flash: at every call boundary the flash
  holds the effect of a prefix of them, and the cache holds exactly the rest.
 */
module NvramDurability {
  import opened Basics
  import opened BlockWrite
  import opened Flash
  import opened Nvram
  import opened NvramAnswers
  import opened NvramRuns

  /** The device after the accepted calls of `evs`, each written through at once. */
  ghost function DeviceAfter(g: Geometry, mem: seq<byte>, evs: seq<Event>): (r: seq<byte>)
    requires g.Valid() && g.Base(g.pageCount) <= |mem|
    ensures |r| == |mem|
  {
    if evs == [] then mem
    else DeviceStep(g, DeviceAfter(g, mem, evs[..|evs| - 1]), evs[|evs| - 1])
  }

  lemma DeviceAfterOneMore(g: Geometry, mem: seq<byte>, evs: seq<Event>, e: Event)
    requires g.Valid() && g.Base(g.pageCount) <= |mem|
    ensures DeviceAfter(g, mem, evs + [e]) == DeviceStep(g, DeviceAfter(g, mem, evs), e)
  {
    hide DeviceStep;
    assert (evs + [e])[..|evs|] == evs;
  }

  /** `pending` is the data of the accepted writes in `evs`, which follow one another in one page. */
  ghost predicate Gathered(g: Geometry, evs: seq<Event>, page: nat, pos: nat, pending: seq<byte>) {
    if evs == [] then pending == []
    else
      var e, rest := evs[|evs| - 1], evs[..|evs| - 1];
      if Changes(g, e) then
        && e.call.Write? && e.call.page == page
        && |e.call.data| <= |pending|
        && var k := |pending| - |e.call.data|;
           e.call.pos == pos + k && e.call.data == pending[k..] && Gathered(g, rest, page, pos, pending[..k])
      else Gathered(g, rest, page, pos, pending)
  }

  /**
    The flash is a prefix of `k` calls plus the first `j` bytes of what comes next; the cache is
    the data of the calls after the prefix.
   */
  ghost predicate Durable(g: Geometry, mem: seq<byte>, evs: seq<Event>, nv: Nv, k: nat, j: nat)
    requires g.Valid() && g.Base(g.pageCount) <= |mem|
  {
    && nv.Valid(g) && |nv.flash| == |mem|
    && k <= |evs| && j <= |nv.pending|
    && (PageFits(g, nv.page, nv.pos, |nv.pending|);
        nv.flash == Programmed(g.kind, DeviceAfter(g, mem, evs[..k]), nv.Addr(g), nv.pending[..j]))
    && Gathered(g, evs[k..], nv.page, nv.pos, nv.pending)
  }

  /** Writing the gathered bytes once has the effect of the gathered calls one by one. */
  lemma {:induction false} GatheredIsOneWrite(g: Geometry, mem: seq<byte>, evs: seq<Event>,
                                              page: nat, pos: nat, pending: seq<byte>)
    requires g.Valid() && g.Base(g.pageCount) <= |mem| && g.InPage(page, pos, |pending|)
    requires Gathered(g, evs, page, pos, pending)
    ensures g.Base(page) + pos + |pending| <= |mem|
    ensures DeviceAfter(g, mem, evs) == Programmed(g.kind, mem, g.Base(page) + pos, pending)
  {
    hide Programmed, Wiped;
    PageFits(g, page, pos, |pending|);
    if evs == [] {
      assert pending[..0] == pending;
      ProgrammedNothing(g.kind, mem, g.Base(page) + pos, pending);
    } else {
      var e, rest := evs[|evs| - 1], evs[..|evs| - 1];
      var k := if Changes(g, e) then |pending| - |e.call.data| else |pending|;
      assert pending[..|pending|] == pending;
      GatheredIsOneWrite(g, mem, rest, page, pos, pending[..k]);
      if Changes(g, e) {
        ProgrammedSplit(g.kind, mem, g.Base(page) + pos, pending, k);
      }
    }
  }

  lemma {:induction false} DeviceAfterAppend(g: Geometry, mem: seq<byte>, a: seq<Event>, b: seq<Event>)
    requires g.Valid() && g.Base(g.pageCount) <= |mem|
    ensures DeviceAfter(g, mem, a + b) == DeviceAfter(g, DeviceAfter(g, mem, a), b)
  {
    hide DeviceStep;
    if b == [] {
      assert a + b == a;
    } else {
      assert (a + b)[..|a + b| - 1] == a + b[..|b| - 1];
      DeviceAfterAppend(g, mem, a, b[..|b| - 1]);
    }
  }

  /** A successful commit brings every accepted call to the flash. */
  lemma CommittedIsDurable(g: Geometry, mem: seq<byte>, evs: seq<Event>, nv: Nv, k: nat, j: nat)
    requires g.Valid() && g.Base(g.pageCount) <= |mem| && Durable(g, mem, evs, nv, k, j)
    ensures nv.Committed(g).flash == DeviceAfter(g, mem, evs)
  {
    hide Programmed, DeviceStep, Gathered;
    PageFits(g, nv.page, nv.pos, |nv.pending|);
    var prefix := DeviceAfter(g, mem, evs[..k]);
    assert nv.pending[..|nv.pending|] == nv.pending && evs[..k] + evs[k..] == evs;
    ProgrammedTwice(g.kind, prefix, nv.Addr(g), nv.pending, j, |nv.pending|);
    GatheredIsOneWrite(g, prefix, evs[k..], nv.page, nv.pos, nv.pending);
    DeviceAfterAppend(g, mem, evs[..k], evs[k..]);
  }

  lemma EmptyCacheIsDurable(g: Geometry, mem: seq<byte>, evs: seq<Event>, nv: Nv)
    requires g.Valid() && g.Base(g.pageCount) <= |mem| && nv.Valid(g) && nv.pending == []
    requires nv.flash == DeviceAfter(g, mem, evs)
    ensures Durable(g, mem, evs, nv, |evs|, 0)
  {
    hide Programmed, DeviceStep;
    PageFits(g, nv.page, nv.pos, 0);
    assert evs[..|evs|] == evs && nv.pending[..0] == nv.pending;
    ProgrammedNothing(g.kind, nv.flash, nv.Addr(g), nv.pending);
  }

  /** A call that changes nothing leaves the prefix and the rest as they are. */
  lemma UnchangedIsDurable(g: Geometry, mem: seq<byte>, evs: seq<Event>, e: Event, nv: Nv, k: nat, j: nat)
    requires g.Valid() && g.Base(g.pageCount) <= |mem| && Durable(g, mem, evs, nv, k, j) && !Changes(g, e)
    ensures Durable(g, mem, evs + [e], nv, k, j)
  {
    hide Programmed, DeviceStep;
    assert (evs + [e])[..k] == evs[..k] && (evs + [e])[k..] == evs[k..] + [e];
    assert (evs[k..] + [e])[..|evs| - k] == evs[k..];
  }

  lemma FailedCommitIsDurable(g: Geometry, mem: seq<byte>, evs: seq<Event>, nv: Nv, nv': Nv, k: nat, j: nat)
    returns (j': nat)
    requires g.Valid() && g.Base(g.pageCount) <= |mem| && Durable(g, mem, evs, nv, k, j) && CommitFailed(g, nv, nv')
    ensures Durable(g, mem, evs, nv', k, j')
  {
    hide Programmed, DeviceStep, Gathered;
    PageFits(g, nv.page, nv.pos, |nv.pending|);
    var n: nat :| n <= |nv.pending| && StopsAt(g.writeBlock, nv.Addr(g), |nv.pending|, n)
                  && nv' == nv.(flash := Programmed(g.kind, nv.flash, nv.Addr(g), nv.pending[..n]));
    ProgrammedTwice(g.kind, DeviceAfter(g, mem, evs[..k]), nv.Addr(g), nv.pending, j, n);
    j' := if j < n then n else j;
  }

  /** A write that continues the cached stretch joins the calls that wait in the cache. */
  lemma ContinuedIsDurable(g: Geometry, mem: seq<byte>, evs: seq<Event>, e: Event, nv: Nv, nv': Nv, k: nat, j: nat)
    requires g.Valid() && g.Base(g.pageCount) <= |mem| && Durable(g, mem, evs, nv, k, j)
    requires e.call.Write? && Changes(g, e) && nv'.Valid(g)
    requires e.call.page == nv.page && e.call.pos == nv.pos + |nv.pending|
    requires nv' == nv.(pending := nv.pending + e.call.data)
    ensures Durable(g, mem, evs + [e], nv', k, j)
  {
    hide Programmed, DeviceStep;
    assert (evs + [e])[..k] == evs[..k] && (evs + [e])[k..] == evs[k..] + [e];
    assert (evs[k..] + [e])[..|evs| - k] == evs[k..];
    assert nv'.pending[..|nv.pending|] == nv.pending && nv'.pending[|nv.pending|..] == e.call.data;
    assert nv'.pending[..j] == nv.pending[..j];
  }

  /** A write that starts the cache anew waits there alone. */
  lemma StartedIsDurable(g: Geometry, mem: seq<byte>, evs: seq<Event>, e: Event, nv': Nv)
    requires g.Valid() && g.Base(g.pageCount) <= |mem|
    requires e.call.Write? && Changes(g, e) && nv'.Valid(g)
    requires nv' == Nv(DeviceAfter(g, mem, evs), e.call.page, e.call.pos, e.call.data)
    ensures Durable(g, mem, evs + [e], nv', |evs|, 0)
  {
    hide Programmed, DeviceStep;
    var data := e.call.data;
    PageFits(g, nv'.page, nv'.pos, |data|);
    ProgrammedNothing(g.kind, nv'.flash, nv'.Addr(g), data);
    assert (evs + [e])[..|evs|] == evs && (evs + [e])[|evs|..] == [e];
    assert [e][..0] == [] && data[..0] == [] && data[0..] == data;
    assert Gathered(g, [], nv'.page, nv'.pos, []);
    assert Gathered(g, [e], nv'.page, nv'.pos, data);
  }

  /** A write too long for the cache is on the flash when the call returns. */
  lemma DirectIsDurable(g: Geometry, mem: seq<byte>, evs: seq<Event>, e: Event, nv: Nv, nv': Nv)
    requires g.Valid() && g.Base(g.pageCount) <= |mem| && nv.Valid(g) && nv.pending == []
    requires nv.flash == DeviceAfter(g, mem, evs)
    requires e.call.Write? && Changes(g, e)
    requires g.Base(e.call.page) + e.call.pos + |e.call.data| <= |nv.flash|
    requires nv' == nv.(flash := Programmed(g.kind, nv.flash, g.Base(e.call.page) + e.call.pos, e.call.data))
    ensures Durable(g, mem, evs + [e], nv', |evs| + 1, 0)
  {
    hide Programmed, Durable, DeviceAfter, Gathered;
    DeviceAfterOneMore(g, mem, evs, e);
    EmptyCacheIsDurable(g, mem, evs + [e], nv');
  }

  lemma WriteIsDurable(g: Geometry, mem: seq<byte>, evs: seq<Event>, e: Event, nv: Nv, nv': Nv, k: nat, j: nat)
    returns (k': nat, j': nat)
    requires g.Valid() && g.Base(g.pageCount) <= |mem| && Durable(g, mem, evs, nv, k, j)
    requires e.call.Write? && Changes(g, e) && MayWrite(g, nv, e.call, e.out, nv')
    ensures k <= k' && Durable(g, mem, evs + [e], nv', k', j')
    ensures j == 0 ==> j' == 0
  {
    hide Programmed, Gathered, DeviceAfter;
    if Continues(g, nv, e.call.page, e.call.pos, |e.call.data|) {
      ContinuedIsDurable(g, mem, evs, e, nv, nv', k, j);
      k', j' := k, j;
    } else {
      CommittedIsDurable(g, mem, evs, nv, k, j);
      PageFits(g, e.call.page, e.call.pos, |e.call.data|);
      if |e.call.data| > g.cacheSize {
        assert e.call.data[..|e.call.data|] == e.call.data;
        DirectIsDurable(g, mem, evs, e, nv.Committed(g), nv');
        k', j' := |evs| + 1, 0;
      } else {
        StartedIsDurable(g, mem, evs, e, nv');
        k', j' := |evs|, 0;
      }
    }
  }

  /** A rejected call of one of these kinds can leave something between the calls on the flash. */
  ghost predicate CanDisorder(g: Geometry, nv: Nv, c: Call)
    requires nv.Valid(g)
  {
    (c.Write? && CanLeaveTrace(g, nv, c)) || (c.Erase? && c.page < g.pageCount && nv.pending != [])
  }

  ghost predicate KeepsOrder(g: Geometry, nv: Nv, e: Event, nv': Nv)
    requires nv.Valid(g)
  {
    e.out.ret == RET_ERROR && CanDisorder(g, nv, e.call) ==> Traceless(g, nv, e, nv')
  }

  lemma OrderlyIsTraceless(g: Geometry, nv: Nv, e: Event, nv': Nv)
    requires nv.Valid(g) && MayStep(g, nv, e.call, e.out, nv') && KeepsOrder(g, nv, e, nv')
    ensures Traceless(g, nv, e, nv')
  {
    hide Programmed, StopsAt, Filled;
    if e.out.ret == RET_ERROR && e.call.Write? && !CanDisorder(g, nv, e.call) && !CommitFailed(g, nv, nv') {
      RejectedLongWrite(g, nv, e.call, e.out, nv');
      PageFits(g, e.call.page, e.call.pos, |e.call.data|);
    }
  }

  /** One call keeps the order, failures included; the prefix never shrinks. */
  lemma StepIsDurable(g: Geometry, mem: seq<byte>, evs: seq<Event>, e: Event, nv: Nv, nv': Nv, k: nat, j: nat)
    returns (k': nat, j': nat)
    requires g.Valid() && g.Base(g.pageCount) <= |mem| && Durable(g, mem, evs, nv, k, j)
    requires MayStep(g, nv, e.call, e.out, nv') && KeepsOrder(g, nv, e, nv')
    ensures k <= k' && Durable(g, mem, evs + [e], nv', k', j')
    ensures j == 0 && !e.out.faulted ==> j' == 0
  {
    hide Programmed, Filled, Gathered, DeviceAfter, StopsAt, CanDisorder;
    OrderlyIsTraceless(g, nv, e, nv');
    hide KeepsOrder;
    StepKeepsValid(g, nv, e.call, e.out, nv');
    if CommitFailed(g, nv, nv') && e.out.faulted {
      k' := k;
      j' := FailedCommitIsDurable(g, mem, evs, nv, nv', k, j);
      UnchangedIsDurable(g, mem, evs, e, nv', k, j');
    } else if e.call.Write? && Changes(g, e) {
      k', j' := WriteIsDurable(g, mem, evs, e, nv, nv', k, j);
    } else if nv' == nv {
      if Changes(g, e) {
        CommittedIsDurable(g, mem, evs, nv, k, j);
        DeviceAfterOneMore(g, mem, evs, e);
        EmptyCacheIsDurable(g, mem, evs + [e], nv');
        k', j' := |evs| + 1, 0;
      } else {
        UnchangedIsDurable(g, mem, evs, e, nv, k, j);
        k', j' := k, j;
      }
    } else {
      CommittedIsDurable(g, mem, evs, nv, k, j);
      DeviceAfterOneMore(g, mem, evs, e);
      EmptyCacheIsDurable(g, mem, evs + [e], nv');
      k', j' := |evs| + 1, 0;
    }
  }

  /**
    Ordered durability over every run that starts with an empty cache: the flash holds the first
    `k` calls, and the cache the others, one contiguous stretch of one page. A failed commit may
    add the first `j` cached bytes; without flash failures there are none of those.
   */
  lemma {:induction false} OrderedDurability(g: Geometry, s: seq<Nv>, evs: seq<Event>) returns (k: nat, j: nat)
    requires Run(g, s, evs) && s[0].pending == []
    requires forall i :: 0 <= i < |evs| ==> KeepsOrder(g, s[i], evs[i], s[i + 1])
    ensures s[0].Valid(g) && Durable(g, s[0].flash, evs, s[|evs|], k, j)
    ensures (forall i :: 0 <= i < |evs| ==> !evs[i].out.faulted) ==> j == 0
  {
    hide Programmed, Gathered, MayStep, KeepsOrder;
    if evs == [] {
      EmptyCacheIsDurable(g, s[0].flash, evs, s[0]);
      k, j := 0, 0;
    } else {
      var n := |evs| - 1;
      k, j := OrderedDurability(g, s[..n + 1], evs[..n]);
      assert forall i :: 0 <= i < n ==> evs[..n][i] == evs[i];
      assert evs[..n] + [evs[n]] == evs;
      k, j := StepIsDurable(g, s[0].flash, evs[..n], evs[n], s[n], s[n + 1], k, j);
    }
  }

  /**
    After a call that leaves nothing in the cache, a flush among them, that met no flash failure:
    the flash holds the effect of every accepted call of the run.
   */
  lemma SyncedRun(g: Geometry, s: seq<Nv>, evs: seq<Event>)
    requires Run(g, s, evs) && s[0].pending == [] && evs != []
    requires forall i :: 0 <= i < |evs| ==> KeepsOrder(g, s[i], evs[i], s[i + 1])
    requires Syncs(g, evs[|evs| - 1].call) && !evs[|evs| - 1].out.faulted
    ensures s[0].Valid(g) && s[|evs|].pending == []
    ensures s[|evs|].flash == DeviceAfter(g, s[0].flash, evs)
  {
    hide Programmed, Gathered, MayStep, KeepsOrder, Durable, DeviceStep, Nv.Logical, Syncs;
    var n := |evs| - 1;
    assert forall i :: 0 <= i < n ==> evs[..n][i] == evs[i];
    var k, j := OrderedDurability(g, s[..n + 1], evs[..n]);
    CommittedIsDurable(g, s[0].flash, evs[..n], s[n], k, j);
    SyncedCall(g, s[n], evs[n], s[n + 1]);
  }
}
