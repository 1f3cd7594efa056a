/** Error detection of the CRC-8: a burst of at most eight bits always changes the checksum. */
module Crc8Burst {
  import opened Crc8
  import opened PolyDivision

  function XorBits(a: seq<bool>, b: seq<bool>): (r: seq<bool>)
    requires |a| == |b|
    ensures |r| == |a|
    ensures forall i :: 0 <= i < |a| ==> r[i] == (a[i] != b[i])
  {
    seq(|a|, i requires 0 <= i < |a| => a[i] != b[i])
  }

  lemma StepLinear(c: Reg, d: Reg, x: bool, y: bool)
    ensures BitStep(c.Xor(d), x != y) == BitStep(c, x).Xor(BitStep(d, y))
  {
    StepForm(c, x);
    StepForm(d, y);
    StepForm(c.Xor(d), x != y);
    hide BitStep;
  }

  /** The checksum of a difference is the difference of the checksums. */
  lemma {:induction false} CrcBitsLinear(c: Reg, d: Reg, a: seq<bool>, b: seq<bool>)
    requires |a| == |b|
    ensures CrcBits(c.Xor(d), XorBits(a, b)) == CrcBits(c, a).Xor(CrcBits(d, b))
    decreases |a|
  {
    hide BitStep;
    hide Reg.Xor;
    if a != [] {
      var x := XorBits(a, b);
      assert x[1..] == XorBits(a[1..], b[1..]);
      StepLinear(c, d, a[0], b[0]);
      CrcBitsLinear(BitStep(c, a[0]), BitStep(d, b[0]), a[1..], b[1..]);
    }
  }

  lemma NextZero(c: Reg)
    ensures c.Next() == ZERO <==> c == ZERO
    ensures BitStep(c, false) == c.Next()
  {
  }

  /** Zero bits neither create nor remove a non-zero register. */
  lemma {:induction false} ZerosKeepZero(c: Reg, n: nat)
    ensures CrcBits(c, Falses(n)) == ZERO <==> c == ZERO
    decreases n
  {
    hide BitStep;
    hide Reg.Next;
    if n > 0 {
      assert Falses(n)[1..] == Falses(n - 1);
      NextZero(c);
      ZerosKeepZero(c.Next(), n - 1);
    }
  }

  lemma EightStepsKeepNonzero(w: Reg)
    requires w != ZERO
    ensures w.Next8() != ZERO
  {
    hide Reg.Next;
    var w1 := w.Next(); var w2 := w1.Next(); var w3 := w2.Next(); var w4 := w3.Next();
    var w5 := w4.Next(); var w6 := w5.Next(); var w7 := w6.Next();
    NextZero(w); NextZero(w1); NextZero(w2); NextZero(w3); NextZero(w4); NextZero(w5); NextZero(w6); NextZero(w7);
  }

  /** A burst that starts at once and is over after eight bits. */
  lemma BurstIsNonzero(e: seq<bool>)
    requires |e| >= 8 && e[0] && forall i :: 8 <= i < |e| ==> !e[i]
    ensures CrcBits(ZERO, e) != ZERO
  {
    var w := Reg(e[0], e[1], e[2], e[3], e[4], e[5], e[6], e[7]);
    assert w.Bits() == e[..8] by {
      forall i | 0 <= i < 8 ensures w.Bits()[i] == e[i] {
      }
    }
    assert e == w.Bits() + Falses(|e| - 8);
    CrcBitsAppend(ZERO, w.Bits(), Falses(|e| - 8));
    CrcByte(ZERO, w);
    XorZero(w);
    EightStepsKeepNonzero(w);
    ZerosKeepZero(w.Next8(), |e| - 8);
  }

  /** The same when the message ends within the burst. */
  lemma ShortBurstIsNonzero(e: seq<bool>)
    requires e != [] && e[0] && forall i :: 8 <= i < |e| ==> !e[i]
    ensures CrcBits(ZERO, e) != ZERO
  {
    var padded := e + Falses(8);
    BurstIsNonzero(padded);
    CrcBitsAppend(ZERO, e, Falses(8));
    ZerosKeepZero(CrcBits(ZERO, e), 8);
  }

  /** Different messages of one length differ in some bit. */
  lemma {:induction false} BitsDiffer(a: seq<bv8>, b: seq<bv8>) returns (f: nat)
    requires |a| == |b| && a != b
    ensures f < 8 * |a| && Bits(a)[f] != Bits(b)[f] && Bits(a)[..f] == Bits(b)[..f]
    decreases |a|
  {
    hide OfByte;
    hide Reg.Bits;
    var x, y := OfByte(a[0]), OfByte(b[0]);
    if a[0] == b[0] {
      assert a == [a[0]] + a[1..] && b == [b[0]] + b[1..];
      var g := BitsDiffer(a[1..], b[1..]);
      f := g + 8;
      assert Bits(a)[..f] == x.Bits() + Bits(a[1..])[..g];
      assert Bits(b)[..f] == y.Bits() + Bits(b[1..])[..g];
    } else {
      OfByteInjective(a[0], b[0]);
      f := RegDiffer(x, y);
      assert Bits(a)[..f] == x.Bits()[..f] && Bits(b)[..f] == y.Bits()[..f];
    }
  }

  lemma RegDiffer(x: Reg, y: Reg) returns (f: nat)
    requires x != y
    ensures f < 8 && x.Bits()[f] != y.Bits()[f] && x.Bits()[..f] == y.Bits()[..f]
  {
    hide Reg.BitAt;
    hide Reg.Bits;
    f := 0;
    while f < 7 && x.BitAt(f) == y.BitAt(f)
      invariant f < 8 && forall i :: 0 <= i < f ==> x.BitAt(i) == y.BitAt(i)
    {
      f := f + 1;
    }
    if x.BitAt(f) == y.BitAt(f) { BitsDetermine(x, y); }
  }

  lemma BitsDetermine(x: Reg, y: Reg)
    requires forall i :: 0 <= i < 8 ==> x.BitAt(i) == y.BitAt(i)
    ensures x == y
  {
    assert x.BitAt(0) == y.BitAt(0) && x.BitAt(1) == y.BitAt(1) && x.BitAt(2) == y.BitAt(2) && x.BitAt(3) == y.BitAt(3);
    assert x.BitAt(4) == y.BitAt(4) && x.BitAt(5) == y.BitAt(5) && x.BitAt(6) == y.BitAt(6) && x.BitAt(7) == y.BitAt(7);
  }

  /** The messages differ in bits p..p+8 only. */
  ghost predicate WithinBurst(a: seq<bv8>, b: seq<bv8>, p: nat) {
    |a| == |b| && forall i :: 0 <= i < 8 * |a| && Bits(a)[i] != Bits(b)[i] ==> p <= i < p + 8
  }

  /** A burst error of at most eight bits changes the checksum, whatever the length of the message. */
  lemma BurstChangesCrc(a: seq<bv8>, b: seq<bv8>, p: nat)
    requires WithinBurst(a, b, p) && a != b
    ensures Crc(ZERO, a) != Crc(ZERO, b)
  {
    var f := BitsDiffer(a, b);
    var e := XorBits(Bits(a), Bits(b));
    var tail := e[f..];
    forall i | 0 <= i < f ensures !e[i] {
      assert Bits(a)[..f][i] == Bits(b)[..f][i];
    }
    assert e == Falses(f) + tail;
    forall i | 8 <= i < |tail| ensures !tail[i] {
      assert tail[i] == e[f + i];
    }
    CrcBitsAppend(ZERO, Falses(f), tail);
    ZerosKeepZero(ZERO, f);
    ShortBurstIsNonzero(tail);
    CrcBitsLinear(ZERO, ZERO, Bits(a), Bits(b));
    XorZero(ZERO);
    CrcIsCrcBits(ZERO, a);
    CrcIsCrcBits(ZERO, b);
    XorSelf(Crc(ZERO, a));
  }

  lemma XorSelf(c: Reg)
    ensures c.Xor(c) == ZERO
  {
  }
}
