/**
 The reflected CRC-32 as long division: read lowest bit first, the register is a polynomial,
 and one step down is one step of the division by
 x^32 + x^26 + x^23 + x^22 + x^16 + x^12 + x^11 + x^10 + x^8 + x^7 + x^5 + x^4 + x^2 + x + 1.
 */
module Crc32Division {
  import opened Crc32
  import opened PolyDivision

  /** The divisor without its leading one, highest power first: 0x04C11DB7. */
  const POLY: seq<bool> := POLY_HIGH + POLY_LOW

  const POLY_HIGH: seq<bool> := [
    false, false, false, false, false, true, false, false, true, true, false, false, false, false, false, true]

  const POLY_LOW: seq<bool> := [
    false, false, false, true, true, true, false, true, true, false, true, true, false, true, true, true]

  predicate Odd(c: bv32) { c & 1 != 0 }

  function Half(c: bv32): bv32 { c >> 1 }

  function Halved(c: bv32, n: nat): bv32
    decreases n
  {
    if n == 0 then c else Halved(Half(c), n - 1)
  }

  /** The n lowest bits, lowest first. */
  function LowBits(c: bv32, n: nat): (r: seq<bool>)
    ensures |r| == n
    decreases n
  {
    if n == 0 then [] else [Odd(c)] + LowBits(Half(c), n - 1)
  }

  /** The word read in reverse: lowest bit first. */
  function Reflected(c: bv32): (r: seq<bool>)
    ensures |r| == 32
  {
    LowBits(c, 32)
  }

  lemma OddXor(c: bv32, d: bv32)
    ensures Odd(Xor(c, d)) == (Odd(c) != Odd(d))
    ensures Half(Xor(c, d)) == Xor(Half(c), Half(d))
  {
  }

  lemma {:induction false} LowBitsXor(c: bv32, d: bv32, n: nat)
    ensures LowBits(Xor(c, d), n) == AddHead(LowBits(c, n), LowBits(d, n))
    decreases n
  {
    hide Odd;
    hide Half;
    hide Xor;
    if n > 0 {
      OddXor(c, d);
      LowBitsXor(Half(c), Half(d), n - 1);
    }
  }

  lemma {:induction false} LowBitsSnoc(c: bv32, n: nat)
    ensures LowBits(c, n + 1) == LowBits(c, n) + [Odd(Halved(c, n))]
    decreases n
  {
    hide Odd;
    hide Half;
    if n > 0 { LowBitsSnoc(Half(c), n - 1); }
  }

  lemma HalvedEight(c: bv32, n: nat)
    ensures Halved(c, n + 8) == Halved(Shr8(c), n)
  {
    EightHalves(c);
    hide Half;
    var c1 := Half(c); var c2 := Half(c1); var c3 := Half(c2); var c4 := Half(c3);
    var c5 := Half(c4); var c6 := Half(c5); var c7 := Half(c6);
    assert Halved(c, n + 8) == Halved(c1, n + 7) == Halved(c2, n + 6) == Halved(c3, n + 5) == Halved(c4, n + 4);
    assert Halved(c4, n + 4) == Halved(c5, n + 3) == Halved(c6, n + 2) == Halved(c7, n + 1) == Halved(Half(c7), n);
  }

  lemma EightHalves(c: bv32)
    ensures Half(Half(Half(Half(Half(Half(Half(Half(c)))))))) == Shr8(c)
  {
  }

  lemma FourBytesOut(c: bv32)
    ensures Shr8(Shr8(Shr8(Shr8(c)))) == 0
  {
  }

  /** Nothing is left of a word after 32 halvings. */
  lemma HalvedAway(c: bv32)
    ensures Halved(c, 32) == 0
  {
    FourBytesOut(c);
    hide Shr8;
    HalvedEight(c, 24);
    HalvedEight(Shr8(c), 16);
    HalvedEight(Shr8(Shr8(c)), 8);
    HalvedEight(Shr8(Shr8(Shr8(c))), 0);
  }

  /** Halving moves the reflected bits up by one. */
  lemma ReflectedHalf(c: bv32)
    ensures Reflected(Half(c)) == Reflected(c)[1..] + [false]
  {
    LowBitsSnoc(c, 32);
    HalvedAway(c);
    assert !Odd(0);
    hide Odd;
    hide Half;
    hide Halved;
    assert LowBits(c, 33)[1..] == LowBits(Half(c), 32);
  }

  lemma Digit(c: bv32, n: nat)
    requires n > 0
    ensures LowBits(c, n) == [Odd(c)] + LowBits(Half(c), n - 1)
  {
  }

  function Shr4(c: bv32): bv32 { c >> 4 }

  /** The four lowest bits. */
  function Nibble(c: bv32): (r: seq<bool>)
    ensures |r| == 4
  {
    [c & 1 != 0, c & 2 != 0, c & 4 != 0, c & 8 != 0]
  }

  lemma NibbleOut(c: bv32, n: nat)
    ensures LowBits(c, n + 4) == Nibble(c) + LowBits(Shr4(c), n)
  {
    hide *;
    NibbleBits(c);
    var c1 := Half(c); var c2 := Half(c1); var c3 := Half(c2);
    Digit(c, n + 4);
    Digit(c1, n + 3);
    Digit(c2, n + 2);
    Digit(c3, n + 1);
  }

  lemma NibbleBits(c: bv32)
    ensures var c1 := Half(c); var c2 := Half(c1); var c3 := Half(c2);
            Nibble(c) == [Odd(c), Odd(c1), Odd(c2), Odd(c3)] && Half(c3) == Shr4(c)
  {
  }

  lemma ReflectedPolyHigh()
    ensures LowBits(0xEDB88320, 32) == POLY_HIGH + LowBits(0xEDB8, 16)
  {
    hide LowBits;
    NibbleOut(0xEDB88320, 28);
    NibbleOut(0xEDB8832, 24);
    NibbleOut(0xEDB883, 20);
    NibbleOut(0xEDB88, 16);
  }

  lemma ReflectedPolyLow()
    ensures LowBits(0xEDB8, 16) == POLY_LOW
  {
    assert LowBits(0, 0) == [];
    hide LowBits;
    NibbleOut(0xEDB8, 12);
    NibbleOut(0xEDB, 8);
    NibbleOut(0xED, 4);
    NibbleOut(0xE, 0);
  }

  /** The constant of the code is the divisor, reflected. */
  lemma ReflectedPoly()
    ensures Reflected(0xEDB88320) == POLY
  {
    ReflectedPolyHigh();
    ReflectedPolyLow();
  }

  /** One bit goes into the register. */
  function Feed(c: bv32, b: bool): bv32 { Down(Xor(c, if b then 1 else 0)) }

  function FeedAll(c: bv32, bits: seq<bool>): bv32
    decreases |bits|
  {
    if bits == [] then c else FeedAll(Feed(c, bits[0]), bits[1..])
  }

  lemma DownForm(c: bv32)
    ensures Down(c) == if Odd(c) then Xor(0xEDB88320, Half(c)) else Half(c)
  {
  }

  lemma XorOne(c: bv32)
    ensures Odd(Xor(c, 1)) == !Odd(c) && Half(Xor(c, 1)) == Half(c)
  {
  }

  lemma FeedForm(c: bv32, b: bool)
    ensures Feed(c, b) == if Odd(c) != b then Xor(0xEDB88320, Half(c)) else Half(c)
  {
    hide Down;
    hide Odd;
    hide Half;
    hide Xor;
    XorOne(c);
    XorZero(c);
    DownForm(c);
    DownForm(Xor(c, 1));
  }

  /** A step of the code is a step of the division. */
  lemma FeedIsStep(c: bv32, b: bool)
    ensures Reflected(Feed(c, b)) == Step(POLY, Reflected(c), b)
  {
    hide *;
    FeedForm(c, b);
    ReflectedHalf(c);
    ReflectedPoly();
    ReflectedXor(0xEDB88320, Half(c));
    ReflectedFirst(c);
    assert Reflected(Feed(c, b)) == Step(POLY, Reflected(c), b);
  }

  lemma ReflectedXor(c: bv32, d: bv32)
    ensures Reflected(Xor(c, d)) == AddHead(Reflected(c), Reflected(d))
  {
    hide Xor;
    hide LowBits;
    LowBitsXor(c, d, 32);
  }

  lemma ReflectedFirst(c: bv32)
    ensures Reflected(c)[0] == Odd(c)
  {
    hide Odd;
    hide Half;
  }

  lemma {:induction false} FeedAllIsRun(c: bv32, bits: seq<bool>)
    ensures Reflected(FeedAll(c, bits)) == Run(POLY, Reflected(c), bits)
    decreases |bits|
  {
    hide Feed;
    hide Reflected;
    if bits != [] {
      FeedIsStep(c, bits[0]);
      FeedAllIsRun(Feed(c, bits[0]), bits[1..]);
    }
  }

  lemma {:induction false} FeedAllAppend(c: bv32, a: seq<bool>, b: seq<bool>)
    ensures FeedAll(c, a + b) == FeedAll(FeedAll(c, a), b)
    decreases |a|
  {
    hide Feed;
    if a == [] {
      assert a + b == b;
    } else {
      assert (a + b)[1..] == a[1..] + b;
      FeedAllAppend(Feed(c, a[0]), a[1..], b);
    }
  }

  function DownN(c: bv32, n: nat): bv32
    decreases n
  {
    if n == 0 then c else DownN(Down(c), n - 1)
  }

  lemma DownEight(c: bv32)
    ensures DownN(c, 8) == Down8(c)
  {
    hide Down;
    var c1 := Down(c); var c2 := Down(c1); var c3 := Down(c2); var c4 := Down(c3);
    var c5 := Down(c4); var c6 := Down(c5); var c7 := Down(c6);
    assert DownN(c, 8) == DownN(c1, 7) == DownN(c2, 6) == DownN(c3, 5) == DownN(c4, 4);
    assert DownN(c4, 4) == DownN(c5, 3) == DownN(c6, 2) == DownN(c7, 1) == DownN(Down(c7), 0);
  }

  /** Feeding the lowest bit of w leaves the rest of w to be added later. */
  lemma FeedOne(c: bv32, w: bv32)
    ensures Xor(Feed(c, Odd(w)), Half(w)) == Down(Xor(c, w))
  {
    var low: bv32 := if Odd(w) then 1 else 0;
    DownLinear(c, low);
    DownLinear(c, w);
    DownParts(w, low);
    XorGroups(Down(c), Down(low), Half(w));
    hide *;
    assert Feed(c, Odd(w)) == Down(Xor(c, low)) by { FeedIsDown(c, Odd(w)); }
  }

  lemma FeedIsDown(c: bv32, b: bool)
    ensures Feed(c, b) == Down(Xor(c, if b then 1 else 0))
  {
  }

  lemma LowForm(low: bv32)
    requires low == 0 || low == 1
    ensures Half(low) == 0 && Odd(low) == (low == 1)
  {
  }

  lemma DownParts(w: bv32, low: bv32)
    requires low == if Odd(w) then 1 else 0
    ensures Xor(Down(low), Half(w)) == Down(w)
  {
    hide Down;
    hide Odd;
    hide Half;
    hide Xor;
    DownForm(w);
    DownForm(low);
    LowForm(low);
    XorZero(0xEDB88320);
    XorZero(Half(w));
    XorCommutes(0, Half(w));
  }

  lemma XorGroups(a: bv32, b: bv32, c: bv32)
    ensures Xor(Xor(a, b), c) == Xor(a, Xor(b, c))
  {
  }

  lemma XorZero(c: bv32)
    ensures Xor(c, 0) == c
  {
  }

  lemma {:induction false} FeedLowBits(c: bv32, w: bv32, n: nat)
    ensures Xor(FeedAll(c, LowBits(w, n)), Halved(w, n)) == DownN(Xor(c, w), n)
    decreases n
  {
    hide Feed;
    hide Xor;
    hide Half;
    hide Odd;
    hide Down;
    if n > 0 {
      FeedOne(c, w);
      FeedLowBits(Feed(c, Odd(w)), Half(w), n - 1);
      assert LowBits(w, n)[1..] == LowBits(Half(w), n - 1);
    }
  }

  /** The bits of a message, the lowest bit of each byte first. */
  function Bits(msg: seq<bv8>): (r: seq<bool>)
    ensures |r| == 8 * |msg|
  {
    if msg == [] then [] else LowBits(msg[0] as bv32, 8) + Bits(msg[1..])
  }

  lemma ByteEnds(b: bv8)
    ensures Shr8(b as bv32) == 0
  {
  }

  /** Eight steps for a byte are one step for each of its bits. */
  lemma FeedByte(c: bv32, b: bv8)
    ensures FeedAll(c, LowBits(b as bv32, 8)) == Down8(Xor(c, b as bv32))
  {
    var w := b as bv32;
    FeedLowBits(c, w, 8);
    HalvedEight(w, 0);
    ByteEnds(b);
    XorZero(FeedAll(c, LowBits(w, 8)));
    DownEight(Xor(c, w));
    assert Halved(Shr8(w), 0) == Shr8(w);
    hide *;
  }

  lemma {:induction false} RegisterIsFeedAll(c: bv32, msg: seq<bv8>)
    ensures Register(c, msg) == FeedAll(c, Bits(msg))
    decreases |msg|
  {
    hide Down8;
    hide Xor;
    hide Feed;
    hide LowBits;
    if msg != [] {
      var w := LowBits(msg[0] as bv32, 8);
      FeedByte(c, msg[0]);
      FeedAllAppend(c, w, Bits(msg[1..]));
      RegisterIsFeedAll(Down8(Xor(c, msg[0] as bv32)), msg[1..]);
    }
  }

  /** From any start value the register is the remainder of that value and the message, times x^32. */
  lemma RegisterIsRemainder(c: bv32, msg: seq<bv8>)
    ensures Reflected(Register(c, msg)) == Remainder(POLY, AddHead(Reflected(c), Bits(msg) + Falses(32)))
  {
    RegisterIsFeedAll(c, msg);
    FeedAllIsRun(c, Bits(msg));
    RunIsRemainder(POLY, Reflected(c), Bits(msg));
  }

  function Not(s: seq<bool>): (r: seq<bool>)
    ensures |r| == |s|
    ensures forall i :: 0 <= i < |s| ==> r[i] == !s[i]
  {
    seq(|s|, i requires 0 <= i < |s| => !s[i])
  }

  /** The first 32 bits complemented. */
  function NotHead(s: seq<bool>): (r: seq<bool>)
    requires |s| >= 32
    ensures |r| == |s|
  {
    Not(s[..32]) + s[32..]
  }

  lemma ReflectedOnes()
    ensures Reflected(ONES) == Not(Falses(32))
  {
    assert LowBits(0, 0) == [];
    hide LowBits;
    assert Nibble(ONES) == Nibble(0xF) == [true, true, true, true];
    NibbleOut(0xFFFFFFFF, 28); NibbleOut(0xFFFFFFF, 24); NibbleOut(0xFFFFFF, 20); NibbleOut(0xFFFFF, 16);
    NibbleOut(0xFFFF, 12); NibbleOut(0xFFF, 8); NibbleOut(0xFF, 4); NibbleOut(0xF, 0);
  }

  lemma ReflectedNot(c: bv32)
    ensures Reflected(Xor(c, ONES)) == Not(Reflected(c))
  {
    hide *;
    ReflectedOnes();
    ReflectedXor(c, ONES);
  }

  /**
   The checksum, complemented and reflected, is the remainder of the message times x^32 with
   the complement of the checksum to continue from added to its first 32 bits.
   */
  lemma ChecksumIsRemainder(crc: bv32, msg: seq<bv8>)
    ensures Not(Reflected(Checksum(crc, msg))) ==
            Remainder(POLY, AddHead(Not(Reflected(crc)), Bits(msg) + Falses(32)))
  {
    var c := Xor(crc, ONES);
    RegisterIsRemainder(c, msg);
    ReflectedNot(crc);
    ReflectedNot(Register(c, msg));
    hide Register;
    hide Reflected;
    hide Xor;
  }

  /** The checksum of a message: the same with its first 32 bits complemented. */
  lemma Crc32IsPolynomialRemainder(msg: seq<bv8>)
    ensures Not(Reflected(Checksum(0, msg))) == Remainder(POLY, NotHead(Bits(msg) + Falses(32)))
  {
    ChecksumIsRemainder(0, msg);
    ReflectedZero();
    var m := Bits(msg) + Falses(32);
    assert AddHead(Not(Falses(32)), m) == NotHead(m);
  }

  lemma ReflectedZero()
    ensures Reflected(0) == Falses(32)
  {
    ReflectedOnes();
    ReflectedNot(0);
    XorCommutes(0, ONES);
    XorZero(ONES);
    hide Reflected;
    hide Xor;
    assert forall i :: 0 <= i < 32 ==> Not(Reflected(0))[i];
  }

  lemma XorCommutes(a: bv32, b: bv32)
    ensures Xor(a, b) == Xor(b, a)
  {
  }
}
