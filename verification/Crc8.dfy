/**
 The CRC-8 of the transfer protocol: polynomial x^8 + x^2 + x + 1, most significant bit
 first, initial value 0. The table-driven loop computes the remainder of polynomial long
 division.
 */
module Crc8 {
  import opened PolyDivision

  const ROW0: seq<bv8> := [0x00, 0x07, 0x0e, 0x09, 0x1c, 0x1b, 0x12, 0x15, 0x38, 0x3f, 0x36, 0x31, 0x24, 0x23, 0x2a, 0x2d]
  const ROW1: seq<bv8> := [0x70, 0x77, 0x7e, 0x79, 0x6c, 0x6b, 0x62, 0x65, 0x48, 0x4f, 0x46, 0x41, 0x54, 0x53, 0x5a, 0x5d]
  const ROW2: seq<bv8> := [0xe0, 0xe7, 0xee, 0xe9, 0xfc, 0xfb, 0xf2, 0xf5, 0xd8, 0xdf, 0xd6, 0xd1, 0xc4, 0xc3, 0xca, 0xcd]
  const ROW3: seq<bv8> := [0x90, 0x97, 0x9e, 0x99, 0x8c, 0x8b, 0x82, 0x85, 0xa8, 0xaf, 0xa6, 0xa1, 0xb4, 0xb3, 0xba, 0xbd]
  const ROW4: seq<bv8> := [0xc7, 0xc0, 0xc9, 0xce, 0xdb, 0xdc, 0xd5, 0xd2, 0xff, 0xf8, 0xf1, 0xf6, 0xe3, 0xe4, 0xed, 0xea]
  const ROW5: seq<bv8> := [0xb7, 0xb0, 0xb9, 0xbe, 0xab, 0xac, 0xa5, 0xa2, 0x8f, 0x88, 0x81, 0x86, 0x93, 0x94, 0x9d, 0x9a]
  const ROW6: seq<bv8> := [0x27, 0x20, 0x29, 0x2e, 0x3b, 0x3c, 0x35, 0x32, 0x1f, 0x18, 0x11, 0x16, 0x03, 0x04, 0x0d, 0x0a]
  const ROW7: seq<bv8> := [0x57, 0x50, 0x59, 0x5e, 0x4b, 0x4c, 0x45, 0x42, 0x6f, 0x68, 0x61, 0x66, 0x73, 0x74, 0x7d, 0x7a]
  const ROW8: seq<bv8> := [0x89, 0x8e, 0x87, 0x80, 0x95, 0x92, 0x9b, 0x9c, 0xb1, 0xb6, 0xbf, 0xb8, 0xad, 0xaa, 0xa3, 0xa4]
  const ROW9: seq<bv8> := [0xf9, 0xfe, 0xf7, 0xf0, 0xe5, 0xe2, 0xeb, 0xec, 0xc1, 0xc6, 0xcf, 0xc8, 0xdd, 0xda, 0xd3, 0xd4]
  const ROWA: seq<bv8> := [0x69, 0x6e, 0x67, 0x60, 0x75, 0x72, 0x7b, 0x7c, 0x51, 0x56, 0x5f, 0x58, 0x4d, 0x4a, 0x43, 0x44]
  const ROWB: seq<bv8> := [0x19, 0x1e, 0x17, 0x10, 0x05, 0x02, 0x0b, 0x0c, 0x21, 0x26, 0x2f, 0x28, 0x3d, 0x3a, 0x33, 0x34]
  const ROWC: seq<bv8> := [0x4e, 0x49, 0x40, 0x47, 0x52, 0x55, 0x5c, 0x5b, 0x76, 0x71, 0x78, 0x7f, 0x6a, 0x6d, 0x64, 0x63]
  const ROWD: seq<bv8> := [0x3e, 0x39, 0x30, 0x37, 0x22, 0x25, 0x2c, 0x2b, 0x06, 0x01, 0x08, 0x0f, 0x1a, 0x1d, 0x14, 0x13]
  const ROWE: seq<bv8> := [0xae, 0xa9, 0xa0, 0xa7, 0xb2, 0xb5, 0xbc, 0xbb, 0x96, 0x91, 0x98, 0x9f, 0x8a, 0x8d, 0x84, 0x83]
  const ROWF: seq<bv8> := [0xde, 0xd9, 0xd0, 0xd7, 0xc2, 0xc5, 0xcc, 0xcb, 0xe6, 0xe1, 0xe8, 0xef, 0xfa, 0xfd, 0xf4, 0xf3]

  /** The 256-entry table, sixteen entries a row. */
  const TABLE: seq<seq<bv8>> := [ROW0, ROW1, ROW2, ROW3, ROW4, ROW5, ROW6, ROW7,
                                 ROW8, ROW9, ROWA, ROWB, ROWC, ROWD, ROWE, ROWF]

  function Entry(i: bv8): bv8 { TABLE[(i >> 4) as int][(i & 0x0F) as int] }

  /** One step of the shift register. */
  function Shift(c: bv8): bv8 { if c & 0x80 != 0 then (c << 1) ^ 0x07 else c << 1 }

  function Shift8(c: bv8): bv8 { Shift(Shift(Shift(Shift(Shift(Shift(Shift(Shift(c)))))))) }

  /** A row of the table holds the register after eight steps, for sixteen consecutive start values. */
  ghost predicate RowIs(row: seq<bv8>, base: bv8) {
    |row| == 16 && forall j: bv8 :: j < 16 ==> row[j] == Shift8(base + j)
  }

  lemma TableRow0()
    ensures RowIs(ROW0, 0x00)
  {
  }

  lemma TableRow1()
    ensures RowIs(ROW1, 0x10)
  {
  }

  lemma TableRow2()
    ensures RowIs(ROW2, 0x20)
  {
  }

  lemma TableRow3()
    ensures RowIs(ROW3, 0x30)
  {
  }

  lemma TableRow4()
    ensures RowIs(ROW4, 0x40)
  {
  }

  lemma TableRow5()
    ensures RowIs(ROW5, 0x50)
  {
  }

  lemma TableRow6()
    ensures RowIs(ROW6, 0x60)
  {
  }

  lemma TableRow7()
    ensures RowIs(ROW7, 0x70)
  {
  }

  lemma TableRow8()
    ensures RowIs(ROW8, 0x80)
  {
  }

  lemma TableRow9()
    ensures RowIs(ROW9, 0x90)
  {
  }

  lemma TableRowA()
    ensures RowIs(ROWA, 0xA0)
  {
  }

  lemma TableRowB()
    ensures RowIs(ROWB, 0xB0)
  {
  }

  lemma TableRowC()
    ensures RowIs(ROWC, 0xC0)
  {
  }

  lemma TableRowD()
    ensures RowIs(ROWD, 0xD0)
  {
  }

  lemma TableRowE()
    ensures RowIs(ROWE, 0xE0)
  {
  }

  lemma TableRowF()
    ensures RowIs(ROWF, 0xF0)
  {
  }

  /** Every entry of the table is the register after eight steps. */
  lemma EntryIsShift8(i: bv8)
    ensures Entry(i) == Shift8(i)
  {
    hide Shift8;
    TableRow0(); TableRow1(); TableRow2(); TableRow3(); TableRow4(); TableRow5(); TableRow6(); TableRow7();
    TableRow8(); TableRow9(); TableRowA(); TableRowB(); TableRowC(); TableRowD(); TableRowE(); TableRowF();
    assert RowIs(TABLE[(i >> 4) as int], i & 0xF0);
    assert (i & 0xF0) + (i & 0x0F) == i;
  }

  /** The register, bit by bit, highest first. */
  datatype Reg = Reg(b7: bool, b6: bool, b5: bool, b4: bool, b3: bool, b2: bool, b1: bool, b0: bool) {
    function Xor(o: Reg): Reg {
      Reg(b7 != o.b7, b6 != o.b6, b5 != o.b5, b4 != o.b4, b3 != o.b3, b2 != o.b2, b1 != o.b1, b0 != o.b0)
    }

    /** One step: up by one, and the divisor's low bits added when a one falls out. */
    function Next(): Reg { Reg(b6, b5, b4, b3, b2, b1 != b7, b0 != b7, b7) }

    /** Up by one place. */
    function Up(): Reg { Reg(b6, b5, b4, b3, b2, b1, b0, false) }

    function Next8(): Reg { Next().Next().Next().Next().Next().Next().Next().Next() }

    function Bits(): (r: seq<bool>)
      ensures |r| == 8
      ensures forall i :: 0 <= i < 8 ==> r[i] == BitAt(i)
    {
      seq(8, i requires 0 <= i < 8 => BitAt(i))
    }

    /** The i-th bit from the top. */
    function BitAt(i: nat): bool
      requires i < 8
    {
      if i == 0 then b7 else if i == 1 then b6 else if i == 2 then b5 else if i == 3 then b4
      else if i == 4 then b3 else if i == 5 then b2 else if i == 6 then b1 else b0
    }
  }

  const ZERO := Reg(false, false, false, false, false, false, false, false)

  predicate Bit(x: bv8, mask: bv8) { x & mask != 0 }

  function OfByte(x: bv8): Reg {
    Reg(Bit(x, 0x80), Bit(x, 0x40), Bit(x, 0x20), Bit(x, 0x10), Bit(x, 0x08), Bit(x, 0x04), Bit(x, 0x02), Bit(x, 0x01))
  }

  lemma OfByteInjective(a: bv8, b: bv8)
    ensures OfByte(a) == OfByte(b) ==> a == b
  {
  }

  lemma MaskXor(a: bv8, b: bv8, m: bv8)
    requires m == 0x80 || m == 0x40 || m == 0x20 || m == 0x10 || m == 0x08 || m == 0x04 || m == 0x02 || m == 0x01
    ensures Bit(a ^ b, m) == (Bit(a, m) != Bit(b, m))
  {
  }

  lemma OfByteXorHigh(a: bv8, b: bv8)
    ensures var x, p, q := OfByte(a ^ b), OfByte(a), OfByte(b);
            x.b7 == (p.b7 != q.b7) && x.b6 == (p.b6 != q.b6) && x.b5 == (p.b5 != q.b5) && x.b4 == (p.b4 != q.b4)
  {
    hide Bit;
    MaskXor(a, b, 0x80); MaskXor(a, b, 0x40); MaskXor(a, b, 0x20); MaskXor(a, b, 0x10);
  }

  lemma OfByteXorLow(a: bv8, b: bv8)
    ensures var x, p, q := OfByte(a ^ b), OfByte(a), OfByte(b);
            x.b3 == (p.b3 != q.b3) && x.b2 == (p.b2 != q.b2) && x.b1 == (p.b1 != q.b1) && x.b0 == (p.b0 != q.b0)
  {
    hide Bit;
    MaskXor(a, b, 0x08); MaskXor(a, b, 0x04); MaskXor(a, b, 0x02); MaskXor(a, b, 0x01);
  }

  lemma OfByteXor(a: bv8, b: bv8)
    ensures OfByte(a ^ b) == OfByte(a).Xor(OfByte(b))
  {
    hide OfByte;
    OfByteXorHigh(a, b);
    OfByteXorLow(a, b);
  }

  lemma OfByteShift(c: bv8)
    ensures OfByte(Shift(c)) == OfByte(c).Next()
  {
  }

  lemma OfByteShift8(c: bv8)
    ensures OfByte(Shift8(c)) == OfByte(c).Next8()
  {
    hide Shift;
    hide OfByte;
    var c1 := Shift(c); var c2 := Shift(c1); var c3 := Shift(c2); var c4 := Shift(c3);
    var c5 := Shift(c4); var c6 := Shift(c5); var c7 := Shift(c6);
    OfByteShift(c); OfByteShift(c1); OfByteShift(c2); OfByteShift(c3);
    OfByteShift(c4); OfByteShift(c5); OfByteShift(c6); OfByteShift(c7);
  }

  /** The register after a message of bytes. */
  function Crc(c: Reg, msg: seq<bv8>): Reg
    decreases |msg|
  {
    if msg == [] then c else Crc(c.Xor(OfByte(msg[0])).Next8(), msg[1..])
  }

  lemma TableStep(r: bv8, x: bv8)
    ensures OfByte((Entry((r ^ x) & 0xFF) ^ (r << 8)) & 0xFF) == OfByte(r).Xor(OfByte(x)).Next8()
  {
    hide OfByte;
    hide Shift8;
    EntryIsShift8(r ^ x);
    OfByteXor(r, x);
    OfByteShift8(r ^ x);
  }

  /** crc_update, over the table. */
  method CrcUpdate(crc: bv8, data: seq<bv8>) returns (r: bv8)
    ensures OfByte(r) == Crc(OfByte(crc), data)
  {
    hide OfByte;
    hide Entry;
    hide Reg.Next8;
    r := crc;
    var i := 0;
    assert data[0..] == data;
    while i < |data|
      invariant 0 <= i <= |data|
      invariant Crc(OfByte(r), data[i..]) == Crc(OfByte(crc), data)
    {
      var idx := (r ^ data[i]) & 0xFF;
      TableStep(r, data[i]);
      r := (Entry(idx) ^ (r << 8)) & 0xFF;
      assert data[i..][1..] == data[i + 1..];
      i := i + 1;
    }
  }

  /** Updating over a, then over b, is updating over both: the result does not depend on the chunks. */
  lemma {:induction false} CrcAppend(c: Reg, a: seq<bv8>, b: seq<bv8>)
    ensures Crc(c, a + b) == Crc(Crc(c, a), b)
    decreases |a|
  {
    hide OfByte;
    hide Reg.Next8;
    if a == [] {
      assert a + b == b;
    } else {
      assert (a + b)[1..] == a[1..] + b;
      CrcAppend(c.Xor(OfByte(a[0])).Next8(), a[1..], b);
    }
  }

  /** The bits of a message, each byte's highest bit first. */
  function Bits(msg: seq<bv8>): (r: seq<bool>)
    ensures |r| == 8 * |msg|
    decreases |msg|
  {
    if msg == [] then [] else OfByte(msg[0]).Bits() + Bits(msg[1..])
  }

  /** The register after one more bit. */
  function BitStep(c: Reg, b: bool): Reg { c.(b7 := c.b7 != b).Next() }

  function CrcBits(c: Reg, bits: seq<bool>): Reg
    decreases |bits|
  {
    if bits == [] then c else CrcBits(BitStep(c, bits[0]), bits[1..])
  }

  lemma {:induction false} CrcBitsAppend(c: Reg, a: seq<bool>, b: seq<bool>)
    ensures CrcBits(c, a + b) == CrcBits(CrcBits(c, a), b)
    decreases |a|
  {
    if a == [] {
      assert a + b == b;
    } else {
      assert (a + b)[1..] == a[1..] + b;
      CrcBitsAppend(BitStep(c, a[0]), a[1..], b);
    }
  }

  /** The register after eight bits. */
  function EightSteps(c: Reg, w: Reg): Reg {
    BitStep(BitStep(BitStep(BitStep(BitStep(BitStep(BitStep(BitStep(c, w.b7), w.b6), w.b5), w.b4), w.b3), w.b2), w.b1), w.b0)
  }

  lemma CrcBitsOfEight(c: Reg, w: Reg)
    ensures CrcBits(c, w.Bits()) == EightSteps(c, w)
  {
    hide BitStep;
    var s := w.Bits();
    var c1 := BitStep(c, s[0]);
    var c2 := BitStep(c1, s[1]);
    var c3 := BitStep(c2, s[2]);
    var c4 := BitStep(c3, s[3]);
    var c5 := BitStep(c4, s[4]);
    var c6 := BitStep(c5, s[5]);
    var c7 := BitStep(c6, s[6]);
    assert s[1..][1..] == s[2..] && s[2..][1..] == s[3..] && s[3..][1..] == s[4..];
    assert s[4..][1..] == s[5..] && s[5..][1..] == s[6..] && s[6..][1..] == s[7..] && s[7..][1..] == [];
    assert CrcBits(c, s) == CrcBits(c1, s[1..]);
    assert CrcBits(c1, s[1..]) == CrcBits(c2, s[2..]);
    assert CrcBits(c2, s[2..]) == CrcBits(c3, s[3..]);
    assert CrcBits(c3, s[3..]) == CrcBits(c4, s[4..]);
    assert CrcBits(c4, s[4..]) == CrcBits(c5, s[5..]);
    assert CrcBits(c5, s[5..]) == CrcBits(c6, s[6..]);
    assert CrcBits(c6, s[6..]) == CrcBits(c7, s[7..]);
    assert CrcBits(c7, s[7..]) == CrcBits(BitStep(c7, s[7]), []);
  }

  lemma CrcByte(c: Reg, w: Reg)
    ensures CrcBits(c, w.Bits()) == c.Xor(w).Next8()
  {
    hide CrcBits;
    hide BitStep;
    hide Reg.Next;
    hide Reg.Bits;
    CrcBitsOfEight(c, w);
    var w1 := w.Up(); var w2 := w1.Up(); var w3 := w2.Up(); var w4 := w3.Up();
    var w5 := w4.Up(); var w6 := w5.Up(); var w7 := w6.Up();
    var c1 := BitStep(c, w.b7); var c2 := BitStep(c1, w.b6); var c3 := BitStep(c2, w.b5); var c4 := BitStep(c3, w.b4);
    var c5 := BitStep(c4, w.b3); var c6 := BitStep(c5, w.b2); var c7 := BitStep(c6, w.b1);
    hide Reg.Xor;
    FeedOne(c, w); FeedOne(c1, w1); FeedOne(c2, w2); FeedOne(c3, w3);
    FeedOne(c4, w4); FeedOne(c5, w5); FeedOne(c6, w6); FeedOne(c7, w7);
    assert w7.Up() == ZERO;
    XorZero(BitStep(c7, w.b0));
  }

  /** Feeding the top bit of w leaves the rest of w to be added later. */
  lemma FeedOne(c: Reg, w: Reg)
    ensures BitStep(c, w.b7).Xor(w.Up()) == c.Xor(w).Next()
  {
  }

  lemma XorZero(c: Reg)
    ensures c.Xor(ZERO) == c && ZERO.Xor(c) == c
  {
  }

  /** Working byte by byte is working bit by bit. */
  lemma {:induction false} CrcIsCrcBits(c: Reg, msg: seq<bv8>)
    ensures Crc(c, msg) == CrcBits(c, Bits(msg))
    decreases |msg|
  {
    hide OfByte;
    hide Reg.Next8;
    hide Reg.Bits;
    if msg != [] {
      var w := OfByte(msg[0]);
      CrcBitsAppend(c, w.Bits(), Bits(msg[1..]));
      CrcByte(c, w);
      CrcIsCrcBits(c.Xor(w).Next8(), msg[1..]);
    }
  }

  /** The divisor x^8 + x^2 + x + 1 without its leading one, highest power first. */
  const POLY: seq<bool> := [false, false, false, false, false, true, true, true]

  lemma PolyBit(i: nat)
    requires i < 8
    ensures POLY[i] == (i >= 5)
  {
  }

  /** A bit of the register after a step: moved up by one, the divisor added if a bit falls out. */
  lemma BitStepBit(c: Reg, b: bool, i: nat)
    requires i < 8
    ensures BitStep(c, b).BitAt(i) == ((i < 7 && c.BitAt(i + 1)) != (b != c.BitAt(0) && i >= 5))
  {
    StepForm(c, b);
    hide BitStep;
  }

  /** The step of the register, over its eight named bits and over a sequence of bits. */
  lemma StepIsDivisionStep(c: Reg, b: bool)
    ensures BitStep(c, b).Bits() == Step(POLY, c.Bits(), b)
  {
    var s, t := BitStep(c, b).Bits(), Step(POLY, c.Bits(), b);
    hide *;
    forall i | 0 <= i < 8 ensures s[i] == t[i] {
      BitStepBit(c, b, i);
      PolyBit(i);
    }
    assert s == t;
  }

  lemma StepForm(c: Reg, b: bool)
    ensures var out := b != c.b7;
            BitStep(c, b) == Reg(c.b6, c.b5, c.b4, c.b3, c.b2, c.b1 != out, c.b0 != out, out)
  {
  }

  lemma {:induction false} CrcBitsIsRun(c: Reg, bits: seq<bool>)
    ensures CrcBits(c, bits).Bits() == Run(POLY, c.Bits(), bits)
    decreases |bits|
  {
    hide BitStep;
    hide Reg.Bits;
    if bits != [] {
      StepIsDivisionStep(c, bits[0]);
      CrcBitsIsRun(BitStep(c, bits[0]), bits[1..]);
    }
  }

  /** From any start value the register is the remainder of that value and the message, times x^8. */
  lemma RegisterIsRemainder(c: Reg, msg: seq<bv8>)
    ensures Crc(c, msg).Bits() == Remainder(POLY, AddHead(c.Bits(), Bits(msg) + Falses(8)))
  {
    CrcIsCrcBits(c, msg);
    CrcBitsIsRun(c, Bits(msg));
    RunIsRemainder(POLY, c.Bits(), Bits(msg));
  }

  /** The checksum of a message is the remainder of the message times x^8. */
  lemma CrcIsPolynomialRemainder(msg: seq<bv8>)
    ensures Crc(ZERO, msg).Bits() == Remainder(POLY, Bits(msg) + Falses(8))
  {
    RegisterIsRemainder(ZERO, msg);
    assert AddHead(ZERO.Bits(), Bits(msg) + Falses(8)) == Bits(msg) + Falses(8);
  }
}
