/** Block-aligned programming of an arbitrary byte range (zb_nrf_nvram.c, nvram_flash_write). */
module BlockWrite {
  import opened Basics
  import opened Flash

  // The write blocks are powers of two: masking an offset with `write_block - 1`, as the source
  // does, is taking the remainder.
  ghost predicate IsBlock(block: nat) {
    block in {2, 4, 8, 16}
  }

  // Remainders are reasoned about one block size at a time: `block` is then a literal.
  lemma Multiple(block: nat, q: nat)
    requires IsBlock(block)
    ensures (q * block) % block == 0
  {
    if block == 2 {
      assert (q * 2) % 2 == 0;
    } else if block == 4 {
      assert (q * 4) % 4 == 0;
    } else if block == 8 {
      assert (q * 8) % 8 == 0;
    } else {
      assert (q * 16) % 16 == 0;
    }
  }

  lemma Quotient(block: nat, k: nat)
    requires IsBlock(block)
    ensures k == k / block * block + k % block && k % block < block
  {
  }

  /**
    Where a write that fails can have stopped: before everything, behind the unaligned head, or
    behind the aligned middle, wherever an operation comes next.
   */
  predicate StopsAt(block: nat, off: nat, len: nat, k: nat) {
    if block <= 1 then k == 0
    else
      var head := HeadLen(block, off, len);
      var tail := (len - head) % block;
      || (off % block != 0 && k == 0)
      || (len - head - tail != 0 && k == head)
      || (tail != 0 && k == len - tail)
  }

  /** How many bytes go into the block that `off` is in the middle of. */
  function HeadLen(block: nat, off: nat, len: nat): (head: nat)
    requires block > 1
    ensures head <= len
  {
    if off % block == 0 then 0
    else if len < block - off % block then len
    else block - off % block
  }

  lemma StopsInside(block: nat, off: nat, len: nat, k: nat)
    requires StopsAt(block, off, len, k)
    ensures k <= len && (len > 0 ==> k < len)
  {
    if block > 1 {
      var rest := len - HeadLen(block, off, len);
      RemainderFits(block, rest);
    }
  }

  /** Where the last operation of a write begins. */
  function LastStop(block: nat, off: nat, len: nat): nat {
    if block <= 1 then 0
    else
      var head := HeadLen(block, off, len);
      var tail := (len - head) % block;
      RemainderFits(block, len - head);
      if tail != 0 then len - tail else if len - head != 0 then head else 0
  }

  lemma LastStopIsLast(block: nat, off: nat, len: nat)
    requires len > 0
    ensures StopsAt(block, off, len, LastStop(block, off, len))
    ensures forall k: nat :: StopsAt(block, off, len, k) ==> k <= LastStop(block, off, len)
  {
    if block > 1 {
      RemainderFits(block, len - HeadLen(block, off, len));
    }
  }

  lemma RemainderFits(block: nat, n: nat)
    requires block > 0
    ensures n % block <= n
  {
    if n < block {
      assert n % block == n;
    }
  }

  /** A block that starts inside a block-aligned device ends inside it. */
  lemma BlockFits(size: nat, start: nat, block: nat)
    requires IsBlock(block) && size % block == 0 && start % block == 0 && start < size
    ensures start + block <= size
  {
    Quotient(block, size);
    Quotient(block, start);
    var i, j := start / block, size / block;
    assert j <= i ==> j * block <= i * block;
    assert (i + 1) * block <= j * block;
  }

  lemma RoundDown(k: nat, block: nat)
    requires IsBlock(block)
    ensures k % block < block && (k - k % block) % block == 0
    ensures (k - k % block + block) % block == 0
  {
    Quotient(block, k);
    Multiple(block, k / block);
    Multiple(block, k / block + 1);
    assert (k / block + 1) * block == k / block * block + block;
  }

  lemma SumAligned(a: nat, b: nat, block: nat)
    requires IsBlock(block) && a % block == 0 && b % block == 0
    ensures (a + b) % block == 0
  {
    Quotient(block, a);
    Quotient(block, b);
    Multiple(block, a / block + b / block);
    assert (a / block + b / block) * block == a / block * block + b / block * block;
  }

  lemma SplitAt(kind: Kind, cells: seq<byte>, off: nat, data: seq<byte>, j: nat, k: nat)
    requires off + |data| <= |cells| && j <= k <= |data|
    ensures Programmed(kind, Programmed(kind, cells, off, data[..j]), off + j, data[j..][..k - j])
         == Programmed(kind, cells, off, data[..k])
  {
    assert data[..k][..j] == data[..j] && data[..k][j..] == data[j..][..k - j];
    ProgrammedSplit(kind, cells, off, data[..k], j);
  }

  /** Reads one block, replaces `chunk` in it and writes the whole block back. */
  method PatchBlock(area: FlashArea, start: nat, at: nat, chunk: seq<byte>) returns (err: int)
    requires area.Valid() && IsBlock(area.writeBlock) && start % area.writeBlock == 0
    requires start < |area.cells| && at + |chunk| <= area.writeBlock
    modifies area
    ensures |area.cells| == |old(area.cells)| && start + at + |chunk| <= |area.cells|
    ensures area.cells
         == if err == 0 then Programmed(area.kind, old(area.cells), start + at, chunk) else old(area.cells)
    ensures area.faults == old(area.faults) + if err == 0 then 0 else 1
    ensures area.misaligned == old(area.misaligned)
  {
    hide Programmed;
    BlockFits(|area.cells|, start, area.writeBlock);
    RoundDown(area.writeBlock, area.writeBlock);
    var blockBuf;
    err, blockBuf := area.Read(start, area.writeBlock);
    if err == 0 {
      ReadModifyWrite(area.kind, area.cells, start, area.writeBlock, at, chunk);
      err := area.Write(start, Patched(blockBuf, at, chunk));
    }
  }

  /** The aligned middle and the unaligned tail; `done` bytes reached the flash. */
  method WriteFromBlockStart(area: FlashArea, off: nat, data: seq<byte>) returns (err: int, ghost done: nat)
    requires area.Valid() && IsBlock(area.writeBlock) && off + |data| <= |area.cells|
    requires |data| > 0 ==> off % area.writeBlock == 0
    modifies area
    ensures |area.cells| == |old(area.cells)|
    ensures done <= |data| && (err == 0 ==> done == |data|)
    ensures err != 0 ==>
              || (|data| - |data| % area.writeBlock != 0 && done == 0)
              || (|data| % area.writeBlock != 0 && done == |data| - |data| % area.writeBlock)
    ensures area.cells == Programmed(area.kind, old(area.cells), off, data[..done])
    ensures area.faults == old(area.faults) + if err == 0 then 0 else 1
    ensures area.misaligned == old(area.misaligned)
  {
    hide Programmed;
    var tail := |data| % area.writeBlock;
    var alignedLen := |data| - tail;
    ghost var before := area.cells;
    RoundDown(|data|, area.writeBlock);
    ProgrammedNothing(area.kind, before, off, data);
    done, err := 0, 0;
    if alignedLen != 0 {
      err := area.Write(off, data[..alignedLen]);
      if err != 0 {
        return;
      }
    }
    done := alignedLen;
    if tail != 0 {
      SumAligned(off, alignedLen, area.writeBlock);
      err := PatchBlock(area, off + alignedLen, 0, data[alignedLen..]);
      if err != 0 {
        return;
      }
      assert data[alignedLen..][..tail] == data[alignedLen..];
      SplitAt(area.kind, before, off, data, alignedLen, |data|);
    }
    done := |data|;
  }

  /** Programs `data` at `off`; `done` bytes of it reached the flash. */
  method NvramFlashWrite(area: FlashArea, off: nat, data: seq<byte>) returns (err: int, ghost done: nat)
    requires area.Valid() && off + |data| <= |area.cells|
    modifies area
    ensures area.Valid() && |area.cells| == |old(area.cells)|
    ensures done <= |data| && (err == 0 ==> done == |data|)
    ensures err != 0 ==> StopsAt(area.writeBlock, off, |data|, done)
    ensures area.cells == Programmed(area.kind, old(area.cells), off, data[..done])
    ensures area.faults == old(area.faults) + if err == 0 then 0 else 1
    ensures area.misaligned == old(area.misaligned)
  {
    hide Programmed;
    var block := area.writeBlock;
    ghost var before := area.cells;
    ProgrammedNothing(area.kind, before, off, data);
    if block <= 1 {
      err := area.Write(off, data);
      done := if err == 0 then |data| else 0;
      assert data[..|data|] == data;
      return;
    }

    var at, src := off, 0;
    ghost var head := HeadLen(block, off, |data|);
    if at % block != 0 {
      var blockOff := at % block;
      src := if |data| < block - blockOff then |data| else block - blockOff;
      RoundDown(at, block);
      done := 0;
      err := PatchBlock(area, at - blockOff, blockOff, data[..src]);
      if err != 0 {
        return;
      }
      at := at + src;
    }
    assert src == head && |data[src..]| == |data| - head;
    ghost var rest;
    err, rest := WriteFromBlockStart(area, at, data[src..]);
    done := src + rest;
    SplitAt(area.kind, before, off, data, src, done);
  }
}
