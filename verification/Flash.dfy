/**
  The flash device below the NVRAM driver: a byte array with a write block, whose
  operations may fail at any time and then leave the contents as they were.
 */
module Flash {
  import opened Basics

  const ERASED: byte := 0xFF

  /** RRAM replaces a byte; NOR flash can only clear bits until the next erase. */
  datatype Kind = Overwrite | Nor

  function Program(kind: Kind, cell: byte, value: byte): byte {
    if kind.Nor? then cell & value else value
  }

  /** The contents after programming `data` at `off`. */
  function Programmed(kind: Kind, cells: seq<byte>, off: nat, data: seq<byte>): (r: seq<byte>)
    requires off + |data| <= |cells|
    ensures |r| == |cells|
  {
    seq(|cells|, i requires 0 <= i < |cells| =>
      if off <= i < off + |data| then Program(kind, cells[i], data[i - off]) else cells[i])
  }

  function Filled(cells: seq<byte>, off: nat, len: nat, value: byte): (r: seq<byte>)
    requires off + len <= |cells|
    ensures |r| == |cells|
  {
    cells[..off] + seq(len, _ => value) + cells[off + len..]
  }

  lemma ProgramFacts(kind: Kind, a: byte, b: byte)
    ensures Program(kind, a, a) == a
    ensures Program(kind, Program(kind, a, b), b) == Program(kind, a, b)
    ensures Program(kind, ERASED, b) == b
  {
    assert a & a == a;
    assert (a & b) & b == a & b;
    assert 0xFF & b == b;
  }

  lemma ProgrammedNothing(kind: Kind, cells: seq<byte>, off: nat, data: seq<byte>)
    requires off + |data| <= |cells|
    ensures Programmed(kind, cells, off, data[..0]) == cells
  {
  }

  /** Programming in two adjacent pieces is programming once. */
  lemma ProgrammedSplit(kind: Kind, cells: seq<byte>, off: nat, data: seq<byte>, k: nat)
    requires off + |data| <= |cells| && k <= |data|
    ensures Programmed(kind, Programmed(kind, cells, off, data[..k]), off + k, data[k..])
         == Programmed(kind, cells, off, data)
  {
  }

  /** Two attempts at one write, each stopped after some prefix, leave the longer prefix. */
  lemma ProgrammedTwice(kind: Kind, cells: seq<byte>, off: nat, data: seq<byte>, j: nat, k: nat)
    requires off + |data| <= |cells| && j <= |data| && k <= |data|
    ensures Programmed(kind, Programmed(kind, cells, off, data[..j]), off, data[..k])
         == Programmed(kind, cells, off, data[..if j < k then k else j])
  {
    var most := Programmed(kind, cells, off, data[..if j < k then k else j]);
    var twice := Programmed(kind, Programmed(kind, cells, off, data[..j]), off, data[..k]);
    forall i | 0 <= i < |cells| ensures twice[i] == most[i] {
      if off <= i < off + |data| {
        ProgramFacts(kind, cells[i], data[i - off]);
      }
    }
  }

  /** A block read back, patched and written again programs the patched bytes and nothing else. */
  lemma ReadModifyWrite(kind: Kind, cells: seq<byte>, start: nat, block: nat, at: nat, chunk: seq<byte>)
    requires start + block <= |cells| && at + |chunk| <= block
    ensures Programmed(kind, cells, start, Patched(cells[start..start + block], at, chunk))
         == Programmed(kind, cells, start + at, chunk)
  {
    var l := Programmed(kind, cells, start, Patched(cells[start..start + block], at, chunk));
    var r := Programmed(kind, cells, start + at, chunk);
    forall i | 0 <= i < |cells| ensures l[i] == r[i] {
      ProgramFacts(kind, cells[i], 0);
    }
  }

  /** On NOR flash a write stores its data exactly when it sets no bit that the cells have cleared. */
  lemma NorStoresExactly(cells: seq<byte>, off: nat, data: seq<byte>)
    requires off + |data| <= |cells|
    ensures Programmed(Nor, cells, off, data) == Programmed(Overwrite, cells, off, data)
       <==> forall i :: 0 <= i < |data| ==> cells[off + i] & data[i] == data[i]
  {
    var n, o := Programmed(Nor, cells, off, data), Programmed(Overwrite, cells, off, data);
    assert forall i :: 0 <= i < |data| ==> n[off + i] == cells[off + i] & data[i] && o[off + i] == data[i];
    if forall i :: 0 <= i < |data| ==> cells[off + i] & data[i] == data[i] {
      forall i | 0 <= i < |cells| ensures n[i] == o[i] {
        if off <= i < off + |data| {
          assert cells[off + (i - off)] & data[i - off] == data[i - off];
        }
      }
      assert n == o;
    }
  }

  predicate Aligned(block: nat, off: nat, len: nat) {
    block > 1 ==> off % block == 0 && len % block == 0
  }

  class FlashArea {
    const kind: Kind
    const writeBlock: nat
    var cells: seq<byte>
    /** How many writes were issued with an offset or a length off the write block. */
    ghost var misaligned: nat
    /** How many operations have failed so far. */
    ghost var faults: nat

    constructor (kind: Kind, writeBlock: nat, size: nat)
      ensures this.kind == kind && this.writeBlock == writeBlock
      ensures cells == seq(size, _ => ERASED) && misaligned == 0 && faults == 0
    {
      this.kind, this.writeBlock := kind, writeBlock;
      cells, misaligned, faults := seq(size, _ => ERASED), 0, 0;
    }

    ghost predicate Valid()
      reads this
    {
      && writeBlock in {0, 1, 2, 4, 8, 16}
      && (writeBlock > 1 ==> |cells| % writeBlock == 0)
    }

    /** A read that fails leaves anything in the caller's buffer. */
    method Read(off: nat, len: nat) returns (err: int, bytes: seq<byte>)
      requires off + len <= |cells|
      modifies this`faults
      ensures |bytes| == len && (err == 0 ==> bytes == cells[off..off + len])
      ensures faults == old(faults) + if err == 0 then 0 else 1
    {
      err, bytes := *, cells[off..off + len];
      if err != 0 {
        var anything: seq<byte> := *;
        bytes := seq(len, i requires 0 <= i => if i < |anything| then anything[i] else 0);
        faults := faults + 1;
      }
    }

    method Write(off: nat, data: seq<byte>) returns (err: int)
      requires off + |data| <= |cells|
      modifies this`cells, this`misaligned, this`faults
      ensures cells == if err == 0 then Programmed(kind, old(cells), off, data) else old(cells)
      ensures misaligned == old(misaligned) + if Aligned(writeBlock, off, |data|) then 0 else 1
      ensures faults == old(faults) + if err == 0 then 0 else 1
    {
      err := *;
      misaligned := misaligned + if Aligned(writeBlock, off, |data|) then 0 else 1;
      if err == 0 {
        cells := Programmed(kind, cells, off, data);
      } else {
        faults := faults + 1;
      }
    }

    method Erase(off: nat, len: nat) returns (err: int)
      requires off + len <= |cells|
      modifies this`cells, this`faults
      ensures cells == if err == 0 then Filled(old(cells), off, len, ERASED) else old(cells)
      ensures faults == old(faults) + if err == 0 then 0 else 1
    {
      err := *;
      if err == 0 {
        cells := Filled(cells, off, len, ERASED);
      } else {
        faults := faults + 1;
      }
    }
  }
}
