/** Install codes and their CRC-16/X-25 (scripts/zigbee_production_config.py). */
module InstallCode {
  import opened Basics

  datatype Result<T> = Ok(value: T) | Error

  const IC_SIZE: nat := 16
  const IC_CRC_SIZE: nat := 2
  const IC_FIELD_SIZE: nat := IC_SIZE + IC_CRC_SIZE

  /** One turn of the inner loop. */
  function CrcBit(crc: bv16): bv16 {
    if crc & 1 == 1 then (crc >> 1) ^ 0x8408 else crc >> 1
  }

  function CrcBits(crc: bv16, n: nat): bv16 {
    if n == 0 then crc else CrcBit(CrcBits(crc, n - 1))
  }

  function Xor(r: bv16, q: bv16): bv16 {
    r ^ q
  }

  function Mix(crc: bv16, b: byte): bv16 {
    Xor(crc, b as bv16)
  }

  /** One turn of the outer loop. */
  function CrcByte(crc: bv16, b: byte): bv16 {
    CrcBits(Mix(crc, b), 8)
  }

  /** The register after `data`. */
  function Register(crc: bv16, data: seq<byte>): bv16 {
    if data == [] then crc else CrcByte(Register(crc, data[..|data| - 1]), data[|data| - 1])
  }

  function Crc(data: seq<byte>): bv16 {
    Register(0xFFFF, data) ^ 0xFFFF
  }

  method InstallCodeCrc(data: seq<byte>) returns (r: bv16)
    ensures r == Crc(data)
  {
    var crc: bv16 := 0xFFFF;
    for i := 0 to |data|
      invariant crc == Register(0xFFFF, data[..i])
    {
      RegisterStep(0xFFFF, data, i);
      crc := ShiftByte(crc, data[i]);
    }
    assert data[..|data|] == data;
    r := crc ^ 0xFFFF;
  }

  /** The inner loop. */
  method ShiftByte(crc0: bv16, b: byte) returns (crc: bv16)
    ensures crc == CrcByte(crc0, b)
  {
    crc := Mix(crc0, b);
    for k := 0 to 8
      invariant crc == CrcBits(Mix(crc0, b), k)
    {
      crc := if crc & 1 == 1 then (crc >> 1) ^ 0x8408 else crc >> 1;
    }
  }

  lemma RegisterStep(crc: bv16, data: seq<byte>, i: nat)
    requires i < |data|
    ensures Register(crc, data[..i + 1]) == CrcByte(Register(crc, data[..i]), data[i])
  {
    assert data[..i + 1][..i] == data[..i];
  }

  function Low(crc: bv16): byte {
    (crc & 0xFF) as byte
  }

  function High(crc: bv16): byte {
    (crc >> 8) as byte
  }

  function LittleEndian(crc: bv16): seq<byte> {
    [Low(crc), High(crc)]
  }

  // ---------- The residue ----------

  function Eight(crc: bv16): bv16 {
    CrcBit(CrcBit(CrcBit(CrcBit(CrcBit(CrcBit(CrcBit(CrcBit(crc))))))))
  }

  lemma CrcBitsIsEight(crc: bv16)
    ensures CrcBits(crc, 8) == Eight(crc)
  {
    hide CrcBit;
    assert CrcBits(crc, 0) == crc;
    assert CrcBits(crc, 1) == CrcBit(crc);
    assert CrcBits(crc, 2) == CrcBit(CrcBits(crc, 1));
    assert CrcBits(crc, 3) == CrcBit(CrcBits(crc, 2));
    assert CrcBits(crc, 4) == CrcBit(CrcBits(crc, 3));
    assert CrcBits(crc, 5) == CrcBit(CrcBits(crc, 4));
    assert CrcBits(crc, 6) == CrcBit(CrcBits(crc, 5));
    assert CrcBits(crc, 7) == CrcBit(CrcBits(crc, 6));
  }

  lemma ByteIsEight(crc: bv16, b: byte)
    ensures CrcByte(crc, b) == Eight(Mix(crc, b))
  {
    hide Mix, Eight, CrcBits;
    CrcBitsIsEight(Mix(crc, b));
  }

  // The low byte of the CRC leaves ones in the low byte of the register, whatever it was; eight
  // shifts turn those into a constant, and the high byte of the CRC does the same once more.

  lemma LowLeavesOnes(r: bv16)
    ensures Mix(r, Low(r ^ 0xFFFF)) == (r & 0xFF00) | 0xFF
  {
  }

  lemma OnesShiftOut(r: bv16)
    ensures Eight((r & 0xFF00) | 0xFF) == (r >> 8) ^ 0x0F78
  {
  }

  lemma HighLeavesConstant(r: bv16)
    ensures Mix((r >> 8) ^ 0x0F78, High(r ^ 0xFFFF)) == 0x0F87
  {
  }

  lemma ConstantShiftsOut()
    ensures Eight(0x0F87) == 0xF0B8
  {
  }

  lemma ResidueOfRegister(r: bv16)
    ensures Eight(Mix(Eight(Mix(r, Low(r ^ 0xFFFF))), High(r ^ 0xFFFF))) == 0xF0B8
  {
    hide Eight, Mix, Low, High;
    LowLeavesOnes(r);
    OnesShiftOut(r);
    HighLeavesConstant(r);
    ConstantShiftsOut();
  }

  lemma {:induction false} RegisterAppend(crc: bv16, a: seq<byte>, b: seq<byte>)
    ensures Register(crc, a + b) == Register(Register(crc, a), b)
  {
    if b == [] {
      assert a + b == a;
    } else {
      assert (a + b)[..|a + b| - 1] == a + b[..|b| - 1];
      RegisterAppend(crc, a, b[..|b| - 1]);
    }
  }

  lemma RegisterTwo(crc: bv16, a: byte, b: byte)
    ensures Register(crc, [a, b]) == CrcByte(CrcByte(crc, a), b)
  {
    assert [a, b][..1] == [a] && [a][..0] == [];
    assert Register(crc, [a]) == CrcByte(Register(crc, []), a);
  }

  lemma ResidueOfTwo(r: bv16)
    ensures CrcByte(CrcByte(r, Low(r ^ 0xFFFF)), High(r ^ 0xFFFF)) == 0xF0B8
  {
    hide CrcByte, Eight, Mix, Low, High;
    ByteIsEight(r, Low(r ^ 0xFFFF));
    ByteIsEight(CrcByte(r, Low(r ^ 0xFFFF)), High(r ^ 0xFFFF));
    ResidueOfRegister(r);
  }

  /** A string followed by its own CRC leaves the good-FCS register 0xF0B8 (RFC 1662, Appendix C.2). */
  lemma ResidueIsFixed(data: seq<byte>)
    ensures Crc(data + LittleEndian(Crc(data))) == 0x0F47
  {
    hide CrcByte, Low, High;
    var r, c := Register(0xFFFF, data), Crc(data);
    RegisterAppend(0xFFFF, data, LittleEndian(c));
    RegisterTwo(r, Low(c), High(c));
    ResidueOfTwo(r);
  }

  // ---------- Error detection ----------

  lemma EightIsInjective(r: bv16, q: bv16)
    ensures Eight(r) == Eight(q) ==> r == q
  {
  }

  // The xor laws that the proofs below use, one obligation each.
  lemma XorShift(r: bv16, q: bv16)
    ensures (r ^ q) >> 1 == (r >> 1) ^ (q >> 1)
  {
  }

  lemma XorParity(r: bv16, q: bv16)
    ensures (r ^ q) & 1 == if r & 1 == q & 1 then 0 else 1
  {
  }

  lemma XorPoly(r: bv16, q: bv16, k: bv16)
    ensures (r ^ k) ^ (q ^ k) == r ^ q && (r ^ k) ^ q == (r ^ q) ^ k && r ^ (q ^ k) == (r ^ q) ^ k
  {
  }

  lemma XorSwap(r: bv16, x: bv16, q: bv16, y: bv16)
    ensures Xor(Xor(r, x), Xor(q, y)) == Xor(Xor(r, q), Xor(x, y))
  {
    hide Xor;
    XorAssociates(r, x, Xor(q, y));
    XorAssociates(x, q, y);
    XorTurns(x, q);
    XorAssociates(q, x, y);
    XorAssociates(r, q, Xor(x, y));
  }

  lemma XorAssociates(r: bv16, q: bv16, x: bv16)
    ensures Xor(Xor(r, q), x) == Xor(r, Xor(q, x))
  {
  }

  lemma XorTurns(r: bv16, q: bv16)
    ensures Xor(r, q) == Xor(q, r)
  {
  }

  lemma XorWiden(a: byte, b: byte)
    ensures Xor(a as bv16, b as bv16) == (a ^ b) as bv16
  {
  }

  lemma XorBytes(r: bv16, q: bv16, a: byte, b: byte)
    ensures Xor(Mix(r, a), Mix(q, b)) == Mix(Xor(r, q), a ^ b)
  {
    hide Xor;
    XorSwap(r, a as bv16, q, b as bv16);
    XorWiden(a, b);
  }

  lemma BitIsLinear(r: bv16, q: bv16)
    ensures CrcBit(r ^ q) == CrcBit(r) ^ CrcBit(q)
  {
    hide CrcBit;
    if r & 1 == 1 {
      if q & 1 == 1 {
        BothOdd(r, q);
      } else {
        OneOdd(r, q);
      }
    } else if q & 1 == 1 {
      OneOdd(q, r);
      XorCommutes(r, q);
      XorCommutes(CrcBit(r), CrcBit(q));
    } else {
      BothEven(r, q);
    }
  }

  lemma XorCommutes(r: bv16, q: bv16)
    ensures r ^ q == q ^ r
  {
  }

  lemma BothOdd(r: bv16, q: bv16)
    requires r & 1 == 1 && q & 1 == 1
    ensures CrcBit(r ^ q) == CrcBit(r) ^ CrcBit(q)
  {
    XorParity(r, q);
    XorShift(r, q);
    XorPoly(r >> 1, q >> 1, 0x8408);
  }

  lemma OneOdd(r: bv16, q: bv16)
    requires r & 1 == 1 && q & 1 != 1
    ensures CrcBit(r ^ q) == CrcBit(r) ^ CrcBit(q)
  {
  }

  lemma BothEven(r: bv16, q: bv16)
    requires r & 1 != 1 && q & 1 != 1
    ensures CrcBit(r ^ q) == CrcBit(r) ^ CrcBit(q)
  {
  }

  lemma BitXor(r: bv16, q: bv16)
    ensures CrcBit(Xor(r, q)) == Xor(CrcBit(r), CrcBit(q))
  {
    hide CrcBit;
    BitIsLinear(r, q);
  }

  lemma {:induction false} BitsAreLinear(r: bv16, q: bv16, n: nat)
    ensures CrcBits(Xor(r, q), n) == Xor(CrcBits(r, n), CrcBits(q, n))
  {
    hide CrcBit, Xor;
    if n > 0 {
      BitsAreLinear(r, q, n - 1);
      BitXor(CrcBits(r, n - 1), CrcBits(q, n - 1));
    }
  }

  /** The register differs by what the difference of the inputs makes of it. */
  lemma ByteIsLinear(r: bv16, q: bv16, a: byte, b: byte)
    ensures Xor(CrcByte(r, a), CrcByte(q, b)) == CrcByte(Xor(r, q), a ^ b)
  {
    hide CrcBits, Mix, Xor;
    BitsAreLinear(Mix(r, a), Mix(q, b), 8);
    XorBytes(r, q, a, b);
  }

  lemma XorCancels(r: bv16, q: bv16)
    ensures Xor(r, r) == 0 && (Xor(r, q) == 0 ==> r == q)
  {
  }

  /** Nothing differs outside the 16 bits from bit `k` of the first byte to bit `k` of the third. */
  predicate IsBurst(x: byte, y: byte, z: byte, k: byte) {
    k <= 8 && (x >> k) << k == x && z >> k == 0
  }

  lemma BurstLeavesRegister(x: byte, y: byte, z: byte, k: byte)
    requires IsBurst(x, y, z, k) && (x != 0 || y != 0 || z != 0)
    ensures Eight(Mix(Eight(Mix(Eight(Mix(0, x)), y)), z)) != 0
  {
  }

  lemma ThreeFromZero(x: byte, y: byte, z: byte)
    ensures Three(0, x, y, z) == Eight(Mix(Eight(Mix(Eight(Mix(0, x)), y)), z))
  {
    hide CrcByte, Eight, Mix;
    ByteIsEight(0, x);
    ByteIsEight(CrcByte(0, x), y);
    ByteIsEight(CrcByte(CrcByte(0, x), y), z);
  }

  lemma PairLeavesRegister(x: byte, y: byte)
    requires x != 0 || y != 0
    ensures Eight(Mix(Eight(Mix(0, x)), y)) != 0
  {
  }

  function Three(r: bv16, x: byte, y: byte, z: byte): bv16 {
    CrcByte(CrcByte(CrcByte(r, x), y), z)
  }

  lemma ThreeIsLinear(r: bv16, x: byte, y: byte, z: byte, x': byte, y': byte, z': byte)
    ensures Xor(Three(r, x, y, z), Three(r, x', y', z')) == Three(0, x ^ x', y ^ y', z ^ z')
  {
    hide CrcByte, Xor;
    XorCancels(r, r);
    ByteIsLinear(r, r, x, x');
    ByteIsLinear(CrcByte(r, x), CrcByte(r, x'), y, y');
    ByteIsLinear(CrcByte(CrcByte(r, x), y), CrcByte(CrcByte(r, x'), y'), z, z');
  }

  lemma {:induction false} RegisterIsInjective(r: bv16, q: bv16, data: seq<byte>)
    requires r != q
    ensures Register(r, data) != Register(q, data)
  {
    if data != [] {
      hide CrcByte;
      RegisterIsInjective(r, q, data[..|data| - 1]);
      ByteIsInjective(Register(r, data[..|data| - 1]), Register(q, data[..|data| - 1]), data[|data| - 1]);
    }
  }

  lemma ByteIsInjective(r: bv16, q: bv16, b: byte)
    requires r != q
    ensures CrcByte(r, b) != CrcByte(q, b)
  {
    hide Eight, CrcByte, Mix;
    ByteIsEight(r, b);
    ByteIsEight(q, b);
    EightIsInjective(Mix(r, b), Mix(q, b));
    MixDiffers(r, q, b);
  }

  lemma MixDiffers(r: bv16, q: bv16, b: byte)
    requires r != q
    ensures Mix(r, b) != Mix(q, b)
  {
  }

  lemma XorDiffers(r: bv16, q: bv16, b: bv16)
    requires r != q
    ensures r ^ b != q ^ b
  {
  }

  lemma RegisterThree(r: bv16, x: byte, y: byte, z: byte)
    ensures Register(r, [x, y, z]) == Three(r, x, y, z)
  {
    hide CrcByte;
    RegisterTwo(r, x, y);
    assert [x, y, z][..2] == [x, y];
  }

  lemma TripleDetected(before: seq<byte>, u: (byte, byte, byte), v: (byte, byte, byte), after: seq<byte>)
    requires Three(0, u.0 ^ v.0, u.1 ^ v.1, u.2 ^ v.2) != 0
    ensures Crc(before + [u.0, u.1, u.2] + after) != Crc(before + [v.0, v.1, v.2] + after)
  {
    hide Three, Xor;
    var r := Register(0xFFFF, before);
    ThreeIsLinear(r, u.0, u.1, u.2, v.0, v.1, v.2);
    XorCancels(Three(r, u.0, u.1, u.2), Three(r, v.0, v.1, v.2));
    RegisterThree(r, u.0, u.1, u.2);
    RegisterThree(r, v.0, v.1, v.2);
    DifferInside(before, [u.0, u.1, u.2], [v.0, v.1, v.2], after);
  }

  lemma BurstFromZero(x: byte, y: byte, z: byte, k: byte)
    requires IsBurst(x, y, z, k) && (x != 0 || y != 0 || z != 0)
    ensures Three(0, x, y, z) != 0
  {
    hide Three, Eight, IsBurst;
    BurstLeavesRegister(x, y, z, k);
    ThreeFromZero(x, y, z);
  }

  /**
    Two strings that differ within a burst of at most 16 bits, wherever it starts and whatever
    stands before and after it, never have the same CRC.
   */
  lemma BurstDetected(before: seq<byte>, u: (byte, byte, byte), v: (byte, byte, byte), after: seq<byte>, k: byte)
    requires u != v && IsBurst(u.0 ^ v.0, u.1 ^ v.1, u.2 ^ v.2, k)
    ensures Crc(before + [u.0, u.1, u.2] + after) != Crc(before + [v.0, v.1, v.2] + after)
  {
    hide Three, IsBurst, Crc;
    XorNonZero(u.0, v.0);
    XorNonZero(u.1, v.1);
    XorNonZero(u.2, v.2);
    BurstFromZero(u.0 ^ v.0, u.1 ^ v.1, u.2 ^ v.2, k);
    TripleDetected(before, u, v, after);
  }

  lemma DifferInside(before: seq<byte>, u: seq<byte>, v: seq<byte>, after: seq<byte>)
    requires Register(Register(0xFFFF, before), u) != Register(Register(0xFFFF, before), v)
    ensures Crc(before + u + after) != Crc(before + v + after)
  {
    RegisterAppend(0xFFFF, before, u);
    RegisterAppend(0xFFFF, before, v);
    RegisterAppend(0xFFFF, before + u, after);
    RegisterAppend(0xFFFF, before + v, after);
    RegisterIsInjective(Register(0xFFFF, before + u), Register(0xFFFF, before + v), after);
    XorDiffers(Register(0xFFFF, before + u + after), Register(0xFFFF, before + v + after), 0xFFFF);
  }

  lemma PairIsLinear(r: bv16, a: byte, b: byte, c: byte, d: byte)
    ensures Xor(CrcByte(CrcByte(r, a), b), CrcByte(CrcByte(r, c), d)) == CrcByte(CrcByte(0, a ^ c), b ^ d)
  {
    hide CrcByte, Xor;
    XorCancels(r, r);
    ByteIsLinear(r, r, a, c);
    ByteIsLinear(CrcByte(r, a), CrcByte(r, c), b, d);
  }

  lemma PairFromZero(x: byte, y: byte)
    requires x != 0 || y != 0
    ensures CrcByte(CrcByte(0, x), y) != 0
  {
    hide CrcByte, Eight, Mix;
    ByteIsEight(0, x);
    ByteIsEight(CrcByte(0, x), y);
    PairLeavesRegister(x, y);
  }

  /** In particular not when they differ only within two adjacent bytes. */
  lemma TwoBytesDetected(before: seq<byte>, a: byte, b: byte, c: byte, d: byte, after: seq<byte>)
    requires a != c || b != d
    ensures Crc(before + [a, b] + after) != Crc(before + [c, d] + after)
  {
    hide CrcByte, Crc, Xor;
    var r := Register(0xFFFF, before);
    XorNonZero(a, c);
    XorNonZero(b, d);
    PairFromZero(a ^ c, b ^ d);
    PairIsLinear(r, a, b, c, d);
    XorCancels(CrcByte(CrcByte(r, a), b), CrcByte(CrcByte(r, c), d));
    RegisterTwo(r, a, b);
    RegisterTwo(r, c, d);
    DifferInside(before, [a, b], [c, d], after);
  }

  lemma XorNonZero(a: byte, b: byte)
    ensures a != b ==> a ^ b != 0
  {
  }

  // ---------- An odd number of wrong bits ----------

  function Ones(b: byte): nat {
    if b == 0 then 0 else Ones(b >> 1) + if b & 1 == 1 then 1 else 0
  }

  /** How many bits of `data` are one. */
  function OnesIn(data: seq<byte>): nat {
    if data == [] then 0 else OnesIn(data[..|data| - 1]) + Ones(data[|data| - 1])
  }

  function Difference(u: seq<byte>, v: seq<byte>): (r: seq<byte>)
    requires |u| == |v|
    ensures |r| == |u|
  {
    seq(|u|, i requires 0 <= i < |u| => XorByte(u[i], v[i]))
  }

  function XorByte(a: byte, b: byte): byte {
    a ^ b
  }

  function Half(r: bv16): (h: bv16)
    ensures r != 0 ==> h < r
    ensures r == 0 ==> h == 0
  {
    r >> 1
  }

  predicate LowBit(r: bv16) {
    r & 1 == 1
  }

  /** An odd number of the bits of `r` are one. */
  predicate Odd(r: bv16) {
    r != 0 && Odd(Half(r)) != LowBit(r)
  }

  predicate OddIn(data: seq<byte>) {
    data != [] && OddIn(data[..|data| - 1]) != OddByte(data[|data| - 1])
  }

  predicate OddByte(b: byte) {
    Odd(b as bv16)
  }

  lemma OddStep(r: bv16)
    ensures Odd(r) == (Odd(Half(r)) != LowBit(r))
  {
  }

  lemma WidenHalf(b: byte)
    ensures Half(b as bv16) == (b >> 1) as bv16 && (LowBit(b as bv16) <==> b & 1 == 1)
    ensures b as bv16 == 0 <==> b == 0
  {
  }

  lemma {:induction false} OddCounts(b: byte)
    ensures Odd(b as bv16) <==> Ones(b) % 2 == 1
  {
    hide Half, LowBit;
    WidenHalf(b);
    if b != 0 {
      OddCounts(b >> 1);
    }
  }

  lemma XorHalf(r: bv16, q: bv16)
    ensures Half(Xor(r, q)) == Xor(Half(r), Half(q))
    ensures LowBit(Xor(r, q)) == (LowBit(r) != LowBit(q))
  {
  }

  lemma {:induction false} OddOfXor(r: bv16, q: bv16)
    ensures Odd(Xor(r, q)) == (Odd(r) != Odd(q))
    decreases r, q
  {
    if r == 0 && q == 0 {
      assert Xor(r, q) == 0;
    } else {
      hide Xor, Half, LowBit;
      OddOfXor(Half(r), Half(q));
      XorHalf(r, q);
      OddStep(r);
      OddStep(q);
      OddStep(Xor(r, q));
      hide Odd;
    }
  }

  lemma PolynomialIsOdd()
    ensures Odd(0x8408)
  {
    assert Odd(0x1) == true;
    assert Odd(0x2) == true;
    assert Odd(0x4) == true;
    assert Odd(0x8) == true;
    assert Odd(0x10) == true;
    assert Odd(0x21) == false;
    assert Odd(0x42) == false;
    assert Odd(0x84) == false;
    assert Odd(0x108) == false;
    assert Odd(0x210) == false;
    assert Odd(0x420) == false;
    assert Odd(0x840) == false;
    assert Odd(0x1081) == true;
    assert Odd(0x2102) == true;
    assert Odd(0x4204) == true;
    assert Odd(0x8408) == true;
  }

  /** The bit shifted out and the three of the polynomial make an even number. */
  lemma BitKeepsOdd(r: bv16)
    ensures Odd(CrcBit(r)) == Odd(r)
  {
    hide Odd;
    OddStep(r);
    if LowBit(r) {
      PolynomialIsOdd();
      OddOfXor(Half(r), 0x8408);
    }
  }

  lemma {:induction false} BitsKeepOdd(r: bv16, n: nat)
    ensures Odd(CrcBits(r, n)) == Odd(r)
  {
    hide Odd, CrcBit;
    if n > 0 {
      BitsKeepOdd(r, n - 1);
      BitKeepsOdd(CrcBits(r, n - 1));
    }
  }

  lemma OddOfMix(r: bv16, b: byte)
    ensures Odd(Mix(r, b)) == (Odd(r) != OddByte(b))
  {
    hide Odd, Xor;
    OddOfXor(r, b as bv16);
  }

  lemma {:induction false} RegisterOdd(crc: bv16, data: seq<byte>)
    ensures Odd(Register(crc, data)) == (Odd(crc) != OddIn(data))
  {
    hide Odd, CrcBits, Mix, OddByte;
    if data != [] {
      var before, b := data[..|data| - 1], data[|data| - 1];
      RegisterOdd(crc, before);
      BitsKeepOdd(Mix(Register(crc, before), b), 8);
      OddOfMix(Register(crc, before), b);
    }
  }

  lemma {:induction false} OddInCounts(data: seq<byte>)
    ensures OddIn(data) <==> OnesIn(data) % 2 == 1
  {
    hide OddByte, Ones;
    if data != [] {
      var n := |data| - 1;
      OddInCounts(data[..n]);
      OddByteCounts(data[n]);
      SumIsOddIff(OnesIn(data[..n]), Ones(data[n]));
    }
  }

  lemma OddByteCounts(b: byte)
    ensures OddByte(b) <==> Ones(b) % 2 == 1
  {
    hide Odd, Ones;
    OddCounts(b);
  }

  lemma SumIsOddIff(a: nat, b: nat)
    ensures (a + b) % 2 == 1 <==> (a % 2 == 1) != (b % 2 == 1)
  {
  }

  lemma OddOfXorByte(a: byte, b: byte)
    ensures OddByte(XorByte(a, b)) == (OddByte(a) != OddByte(b))
  {
    hide Odd, Xor;
    XorWiden(a, b);
    OddOfXor(a as bv16, b as bv16);
  }

  lemma DifferenceAtEnd(u: seq<byte>, v: seq<byte>)
    requires |u| == |v| && u != []
    ensures Difference(u, v)[..|u| - 1] == Difference(u[..|u| - 1], v[..|u| - 1])
    ensures Difference(u, v)[|u| - 1] == XorByte(u[|u| - 1], v[|u| - 1])
  {
    hide XorByte;
  }

  lemma {:induction false} OddInDifference(u: seq<byte>, v: seq<byte>)
    requires |u| == |v|
    ensures OddIn(Difference(u, v)) == (OddIn(u) != OddIn(v))
  {
    hide OddByte, XorByte, Difference;
    if u != [] {
      var n := |u| - 1;
      OddInDifference(u[..n], v[..n]);
      DifferenceAtEnd(u, v);
      OddOfXorByte(u[n], v[n]);
    }
  }

  /** Two strings of one length that differ in an odd number of bits never have the same CRC. */
  lemma OddErrorDetected(u: seq<byte>, v: seq<byte>)
    requires |u| == |v| && OnesIn(Difference(u, v)) % 2 == 1
    ensures Crc(u) != Crc(v)
  {
    hide Odd, Register, OddIn, OnesIn;
    OddInCounts(Difference(u, v));
    OddInDifference(u, v);
    RegisterOdd(0xFFFF, u);
    RegisterOdd(0xFFFF, v);
    XorDiffers(Register(0xFFFF, u), Register(0xFFFF, v), 0xFFFF);
  }

  // ---------- The check value ----------

  lemma TwoTurns(crc: bv16, n: nat)
    ensures CrcBits(crc, n + 2) == CrcBit(CrcBit(CrcBits(crc, n))) && CrcBits(crc, 0) == crc
  {
    hide CrcBit;
  }

  lemma ByteTurns(crc: bv16, b: byte)
    ensures CrcByte(crc, b) == CrcBit(CrcBit(CrcBit(CrcBit(CrcBit(CrcBit(CrcBit(CrcBit(Mix(crc, b)))))))))
  {
    TwoTurns(Mix(crc, b), 0);
    TwoTurns(Mix(crc, b), 2);
    TwoTurns(Mix(crc, b), 4);
    TwoTurns(Mix(crc, b), 6);
  }

  lemma OneByteMore(data: seq<byte>, b: byte, r: bv16)
    requires Register(0xFFFF, data) == r
    ensures Register(0xFFFF, data + [b]) == CrcBit(CrcBit(CrcBit(CrcBit(CrcBit(CrcBit(CrcBit(CrcBit(Mix(r, b)))))))))
  {
    assert (data + [b])[..|data|] == data;
    ByteTurns(r, b);
  }

  /** The check value of CRC-16/X-25, for the characters 1 to 9. */
  lemma CheckValue()
    ensures Crc([0x31, 0x32, 0x33, 0x34, 0x35, 0x36, 0x37, 0x38, 0x39]) == 0x906E
  {
    var digits: seq<byte> := [0x31, 0x32, 0x33, 0x34, 0x35, 0x36, 0x37, 0x38, 0x39];
    assert Register(0xFFFF, digits[..0]) == 0xFFFF;
    hide Register;
    OneByteMore(digits[..0], 0x31, 0xFFFF);
    assert digits[..1] == digits[..0] + [0x31];
    OneByteMore(digits[..1], 0x32, 0x2F8D);
    assert digits[..2] == digits[..1] + [0x32];
    OneByteMore(digits[..2], 0x33, 0x4D53);
    assert digits[..3] == digits[..2] + [0x33];
    OneByteMore(digits[..3], 0x34, 0x634B);
    assert digits[..4] == digits[..3] + [0x34];
    OneByteMore(digits[..4], 0x35, 0x8B13);
    assert digits[..5] == digits[..4] + [0x35];
    OneByteMore(digits[..5], 0x36, 0x44BF);
    assert digits[..6] == digits[..5] + [0x36];
    OneByteMore(digits[..6], 0x37, 0x198D);
    assert digits[..7] == digits[..6] + [0x37];
    OneByteMore(digits[..7], 0x38, 0x1AC8);
    assert digits[..8] == digits[..7] + [0x38];
    OneByteMore(digits[..8], 0x39, 0xF795);
    assert digits[..9] == digits[..8] + [0x39];
    assert digits[..9] == digits;
  }

  // ---------- parse_install_code ----------

  /** On the bytes of the hexadecimal string. */
  function ParseInstallCode(ic: seq<byte>): Result<seq<byte>> {
    var expectedCrc := LittleEndian(Crc(ic[..if |ic| < IC_SIZE then |ic| else IC_SIZE]));
    if |ic| == IC_SIZE then Ok(ic + expectedCrc)
    else if |ic| != IC_FIELD_SIZE then Error
    else if ic[IC_SIZE..] != expectedCrc then Error
    else Ok(ic)
  }

  /**
    Every accepted install code field is 18 bytes with the fixed residue, starts with the code
    that was given, and is accepted again as it is.
   */
  lemma ParsedHasResidue(ic: seq<byte>)
    requires ParseInstallCode(ic).Ok?
    ensures var v := ParseInstallCode(ic).value;
            |v| == IC_FIELD_SIZE && v[..IC_SIZE] == ic[..IC_SIZE] && Crc(v) == 0x0F47 && ParseInstallCode(v) == Ok(v)
  {
    hide Crc, Low, High;
    var v := ParseInstallCode(ic).value;
    var code := ic[..IC_SIZE];
    ResidueIsFixed(code);
    assert v == code + LittleEndian(Crc(code));
    assert v[..IC_SIZE] == code;
  }

  /**
    Which install codes are accepted: 16 bytes whatever they are, to which the CRC is added, and 18
    bytes with the residue, as they are.
   */
  lemma AcceptedIff(ic: seq<byte>)
    ensures ParseInstallCode(ic).Ok? <==> |ic| == 16 || (|ic| == 18 && Crc(ic) == 0x0F47)
    ensures |ic| == 16 ==>
              |ParseInstallCode(ic).value| == 18 && ParseInstallCode(ic).value[..16] == ic
              && Crc(ParseInstallCode(ic).value) == 0x0F47
    ensures |ic| == 18 && Crc(ic) == 0x0F47 ==> ParseInstallCode(ic) == Ok(ic)
  {
    hide Crc;
    if |ic| == IC_FIELD_SIZE {
      FieldAcceptedIff(ic);
    } else if |ic| == IC_SIZE {
      ParsedHasResidue(ic);
      assert ic[..16] == ic;
    }
  }

  /** A field of 18 bytes is accepted exactly when it has that residue: no other two bytes give it. */
  lemma FieldAcceptedIff(ic: seq<byte>)
    requires |ic| == IC_FIELD_SIZE
    ensures ParseInstallCode(ic).Ok? <==> Crc(ic) == 0x0F47
  {
    hide Crc, Low, High;
    var code := ic[..IC_SIZE];
    var crc := Crc(code);
    ResidueIsFixed(code);
    assert ic == code + [ic[16], ic[17]] + [] && ic[IC_SIZE..] == [ic[16], ic[17]];
    assert code + LittleEndian(crc) == code + [Low(crc), High(crc)] + [];
    if ic[16] != Low(crc) || ic[17] != High(crc) {
      TwoBytesDetected(code, ic[16], ic[17], Low(crc), High(crc), []);
      assert ic[IC_SIZE..][0] == ic[16] && ic[IC_SIZE..][1] == ic[17];
    }
  }
}
