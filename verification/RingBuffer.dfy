/** The ring buffer macros of zb_ringbuffer.h, refined to a double-ended queue. */
module RingBuffer {
  import opened Basics

  /** The `n` entries stored from index `r` on, wrapping at the end of the cells. */
  function Stored<T>(cells: seq<T>, r: nat, n: nat): (s: seq<T>)
    requires r < |cells| && n <= |cells|
    ensures |s| == n && forall i :: 0 <= i < n ==> s[i] == cells[Wrap(r + i, |cells|)]
  {
    seq(n, i requires 0 <= i < n => cells[Wrap(r + i, |cells|)])
  }

  /** An index that ran over the end of the cells at most once. */
  function Wrap(i: nat, cap: nat): (j: nat)
    requires i < 2 * cap
    ensures j < cap
  {
    if i < cap then i else i - cap
  }

  /** The macros compute it as a remainder. */
  lemma WrapIsMod(i: nat, cap: nat)
    requires i < 2 * cap
    ensures i % cap == Wrap(i, cap)
  {
    if i < cap {
      assert i / cap == 0;
    } else {
      assert i == 1 * cap + (i - cap);
      assert i / cap == 1;
    }
  }

  lemma StoredAppend<T>(cells: seq<T>, r: nat, n: nat, data: seq<T>)
    requires r < |cells| && n + |data| <= |cells| && Wrap(r + n, |cells|) + |data| <= |cells|
    ensures Stored(Patched(cells, Wrap(r + n, |cells|), data), r, n + |data|) == Stored(cells, r, n) + data
  {
    var longer := Stored(Patched(cells, Wrap(r + n, |cells|), data), r, n + |data|);
    assert forall i :: 0 <= i < n ==> longer[i] == Stored(cells, r, n)[i];
    assert forall i :: n <= i < n + |data| ==> longer[i] == data[i - n];
  }

  lemma StoredDrop<T>(cells: seq<T>, r: nat, n: nat, k: nat)
    requires r < |cells| && k <= n <= |cells|
    ensures Stored(cells, Wrap(r + k, |cells|), n - k) == Stored(cells, r, n)[k..]
  {
    var rest := Stored(cells, Wrap(r + k, |cells|), n - k);
    assert forall i :: 0 <= i < n - k ==> rest[i] == Stored(cells, r, n)[k + i];
  }

  // ---------- Batch reads ----------

  /** The pointer, as an index, and the size that ZB_RING_BUFFER_SEARCH_BATCH yields. */
  function SearchBatch(cap: nat, r: nat, w: nat, n: nat, offset: nat): (ps: (nat, int))
    requires r < cap && n <= cap
  {
    if offset >= n then (w, 0)
    else
      var pos := Wrap(r + offset, cap);
      (pos, if pos <= w then n - offset else cap - r - offset)
  }

  /** `size` cells from `pos` are the longest stretch without wrapping of the entries at `offset`. */
  ghost predicate IsBatch(cap: nat, r: nat, n: nat, offset: nat, pos: nat, size: int)
    requires r < cap && n <= cap
  {
    if offset >= n then size == 0
    else
      && pos == Wrap(r + offset, cap)
      && 0 < size && pos + size <= cap && offset + size <= n
      && (pos + size == cap || offset + size == n)
  }

  /**
    SEARCH_BATCH is right in every state and for every offset but one: offset 0 of a full
    buffer whose read index is not 0. There it reports the whole capacity, past the end.
   */
  lemma SearchBatchIsRightIff(cap: nat, r: nat, w: nat, n: nat, offset: nat)
    requires r < cap && n <= cap && w == Wrap(r + n, cap)
    ensures IsBatch(cap, r, n, offset, SearchBatch(cap, r, w, n, offset).0, SearchBatch(cap, r, w, n, offset).1)
       <==> !(n == cap && offset == 0 && r != 0)
    ensures n == cap && offset == 0 ==> SearchBatch(cap, r, w, n, offset) == (r, cap)
  {
    if offset < n {
      var pos := Wrap(r + offset, cap);
      assert pos == w <==> n == cap && offset == 0;
    }
  }

  /** The size that ZB_BYTE_ARRAY_GET_BATCH yields at the read index. */
  function GetBatch(cap: nat, r: nat, n: nat): (size: nat)
    requires r < cap
  {
    if n <= cap - r then n else cap - r
  }

  lemma GetBatchIsRight(cap: nat, r: nat, w: nat, n: nat)
    requires r < cap && n <= cap && w == Wrap(r + n, cap)
    ensures IsBatch(cap, r, n, 0, r, GetBatch(cap, r, n))
    ensures n < cap || r == 0 ==> n > 0 ==> SearchBatch(cap, r, w, n, 0) == (r, GetBatch(cap, r, n))
  {
  }

  // ---------- Batch writes ----------

  // BATCH_PUT copies `n` bytes to entry `w` and counts them as `n` entries. Here the cells are bytes
  // and an entry is `e` of them.

  /** Where entry `n` begins, which is also how many bytes `n` entries are. */
  function At(n: nat, e: nat): nat {
    n * e
  }

  lemma AtFacts(n: nat, e: nat)
    requires e > 0
    ensures n <= At(n, e) && (At(n, e) == n <==> e == 1 || n == 0)
  {
    if e == 1 || n == 0 {
    } else {
      assert n * 2 <= n * e;
    }
  }

  lemma CopyIsWholeIff(cells: seq<byte>, at: nat, data: seq<byte>, n: nat)
    requires n <= |data| && at + |data| <= |cells|
    ensures Patched(cells, at, data[..n])[at..at + |data|] == data <==> cells[at + n..at + |data|] == data[n..]
  {
    var put := Patched(cells, at, data[..n])[at..at + |data|];
    assert put[..n] == data[..n] && put[n..] == cells[at + n..at + |data|];
    assert put == put[..n] + put[n..] && data == data[..n] + data[n..];
  }

  /** The `n` entries are the data afterwards exactly if the bytes behind the copied ones were right before. */
  lemma BatchPutStoresIff(cells: seq<byte>, e: nat, w: nat, n: nat, data: seq<byte>)
    requires e > 0 && |data| == At(n, e) && At(w, e) + At(n, e) <= |cells|
    ensures n <= |data|
    ensures Patched(cells, At(w, e), data[..n])[At(w, e)..At(w, e) + |data|] == data
       <==> cells[At(w, e) + n..At(w, e) + |data|] == data[n..]
  {
    AtFacts(n, e);
    CopyIsWholeIff(cells, At(w, e), data, n);
  }

  ghost predicate BatchPutStores(e: nat, w: nat, n: nat)
    requires e > 0
  {
    AtFacts(n, e);
    forall cells: seq<byte>, data: seq<byte> :: |data| == At(n, e) && At(w, e) + At(n, e) <= |cells| ==>
      Patched(cells, At(w, e), data[..n])[At(w, e)..At(w, e) + |data|] == data
  }

  /** Whatever the cells and the data are, that is so for entries of one byte only. */
  lemma BatchPutStoresAlwaysIff(e: nat, w: nat, n: nat)
    requires e > 0
    ensures BatchPutStores(e, w, n) <==> e == 1 || n == 0
  {
    hide At;
    AtFacts(n, e);
    if e == 1 || n == 0 {
      forall cells: seq<byte>, data: seq<byte> | |data| == At(n, e) && At(w, e) + At(n, e) <= |cells|
        ensures Patched(cells, At(w, e), data[..n])[At(w, e)..At(w, e) + |data|] == data
      {
        CopyIsWholeIff(cells, At(w, e), data, n);
      }
    } else {
      LongEntriesTorn(e, w, n);
    }
  }

  /** An input: zeroes in the cells, ones in the data, and entries of two bytes or more. */
  lemma TornInput(at: nat, size: nat, n: nat) returns (cells: seq<byte>, data: seq<byte>)
    requires n < size
    ensures cells == seq(at + size, _ => 0) && data == seq(size, _ => 1)
    ensures Patched(cells, at, data[..n])[at..at + |data|] != data
  {
    cells, data := seq(at + size, _ => 0), seq(size, _ => 1);
    assert Patched(cells, at, data[..n])[at + n] == 0;
    assert Patched(cells, at, data[..n])[at..at + |data|][n] != data[n];
  }

  lemma LongEntriesTorn(e: nat, w: nat, n: nat)
    requires e > 1 && n > 0
    ensures !BatchPutStores(e, w, n)
  {
    hide At, Patched;
    AtFacts(n, e);
    var cells, data := TornInput(At(w, e), At(n, e), n);
  }

  class RingBuffer<T(0)> {
    var readI: nat
    var writeI: nat
    var written: nat
    const ringBuf: array<T>

    ghost predicate Valid()
      reads this
    {
      && readI < ringBuf.Length && writeI < ringBuf.Length && written <= ringBuf.Length
      && writeI == Wrap(readI + written, ringBuf.Length)
    }

    ghost function Contents(): (s: seq<T>)
      reads this, ringBuf
      requires Valid()
    {
      Stored(ringBuf[..], readI, written)
    }

    constructor (capacity: nat)
      requires capacity > 0
      ensures Valid() && fresh(ringBuf) && ringBuf.Length == capacity && Contents() == []
    {
      ringBuf := new T[capacity];
      readI, writeI, written := 0, 0, 0;
    }

    method Put(value: T)
      requires Valid() && written < ringBuf.Length
      modifies this, ringBuf
      ensures Valid() && Contents() == old(Contents()) + [value]
    {
      ghost var cells := ringBuf[..];
      StoredAppend(cells, readI, written, [value]);
      ringBuf[writeI] := value;
      assert ringBuf[..] == Patched(cells, writeI, [value]);
      written := written + 1;
      WrapIsMod(writeI + 1, ringBuf.Length);
      writeI := (writeI + 1) % ringBuf.Length;
    }

    method PutHead(value: T)
      requires Valid() && written < ringBuf.Length
      modifies this, ringBuf
      ensures Valid() && Contents() == [value] + old(Contents())
    {
      var idx := if readI > 0 then readI - 1 else ringBuf.Length - 1;
      ghost var was := Contents();
      ringBuf[idx] := value;
      written := written + 1;
      if readI > 0 {
        readI := readI - 1;
      } else {
        readI := ringBuf.Length - 1;
      }
      assert forall i :: 0 < i < written ==> Contents()[i] == was[i - 1];
      assert Contents() == [value] + was;
    }

    /** Overwrites the entry put last. */
    method PutReuseLast(value: T)
      requires Valid() && written > 0
      modifies ringBuf
      ensures Valid() && Contents() == old(Contents())[..written - 1] + [value]
    {
      var idx := if writeI != 0 then writeI - 1 else writeI + ringBuf.Length - 1;
      ghost var was := Contents();
      ringBuf[idx] := value;
      assert forall i :: 0 <= i < written - 1 ==> Contents()[i] == was[i];
      assert Contents() == was[..written - 1] + [value];
    }

    method Peek() returns (found: bool, value: T)
      requires Valid()
      ensures found <==> Contents() != []
      ensures found ==> value == Contents()[0]
    {
      found, value := written != 0, ringBuf[readI];
      assert found ==> Contents()[0] == ringBuf[..][Wrap(readI, ringBuf.Length)];
    }

    method FlushGet()
      requires Valid() && written > 0
      modifies this
      ensures Valid() && Contents() == old(Contents())[1..]
    {
      StoredDrop(ringBuf[..], readI, written, 1);
      written := written - 1;
      WrapIsMod(readI + 1, ringBuf.Length);
      readI := (readI + 1) % ringBuf.Length;
    }

    method FlushGetBatch(size: nat)
      requires Valid() && size <= written
      modifies this
      ensures Valid() && Contents() == old(Contents())[size..]
      ensures readI == Wrap(old(readI) + size, ringBuf.Length)
    {
      StoredDrop(ringBuf[..], readI, written, size);
      written := written - size;
      WrapIsMod(readI + size, ringBuf.Length);
      readI := (readI + size) % ringBuf.Length;
    }

    /** The segment handed out by BYTE_ARRAY_GET_BATCH, which holds the oldest entries in order. */
    method ByteArrayGetBatch() returns (start: nat, size: nat)
      requires Valid()
      ensures start == readI && IsBatch(ringBuf.Length, readI, written, 0, start, size)
      ensures start + size <= ringBuf.Length && size <= written
      ensures ringBuf[start..start + size] == Contents()[..size]
    {
      start, size := readI, if written <= ringBuf.Length - readI then written else ringBuf.Length - readI;
      assert forall i :: 0 <= i < size ==> Contents()[i] == ringBuf[..][readI + i];
    }

    /** Get and flush, twice: any state, a full one included, comes out whole and in order. */
    method DrainInTwoRounds() returns (first: seq<T>, second: seq<T>)
      requires Valid()
      modifies this
      ensures Valid() && Contents() == [] && first + second == old(Contents())
    {
      ghost var all := Contents();
      var start, size := ByteArrayGetBatch();
      first := ringBuf[start..start + size];
      FlushGetBatch(size);
      assert all == first + Contents();
      start, size := ByteArrayGetBatch();
      second := ringBuf[start..start + size];
      assert size == written && second == Contents();
      FlushGetBatch(size);
    }
  }

  /** BATCH_PUT into a buffer of bytes: copies as much of `data` as fits before the end of the cells. */
  method BatchPut(rb: RingBuffer<byte>, data: seq<byte>) returns (entriesWritten: nat)
    requires rb.Valid() && |data| <= rb.ringBuf.Length - rb.written
    modifies rb, rb.ringBuf
    ensures rb.Valid() && entriesWritten <= |data|
    ensures rb.Contents() == old(rb.Contents()) + data[..entriesWritten]
    ensures entriesWritten == |data| || rb.writeI == 0
    ensures data != [] ==> entriesWritten > 0
  {
    hide Stored;
    var cap := rb.ringBuf.Length;
    entriesWritten := if cap - rb.writeI < |data| then cap - rb.writeI else |data|;
    StoredAppend(rb.ringBuf[..], rb.readI, rb.written, data[..entriesWritten]);
    CopyIn(rb.ringBuf, rb.writeI, data[..entriesWritten]);
    rb.written := rb.written + entriesWritten;
    WrapIsMod(rb.writeI + entriesWritten, cap);
    rb.writeI := (rb.writeI + entriesWritten) % cap;
  }

  method CopyIn(cells: array<byte>, at: nat, chunk: seq<byte>)
    requires at + |chunk| <= cells.Length
    modifies cells
    ensures cells[..] == Patched(old(cells[..]), at, chunk)
  {
    forall i | 0 <= i < |chunk| {
      cells[at + i] := chunk[i];
    }
  }
}
