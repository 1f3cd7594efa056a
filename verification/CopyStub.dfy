/**
 The copy stub: moves a program to its execution address, the buffers overlapping or not,
 then clears work RAM except where the program now is. Addresses are indices into memory.
 */
module CopyStub {
  import opened Bytes

  const LRAM_STT := 0x0020_0000
  const LRAM_END := 0x002F_F800  // the stub itself starts here
  const HRAM_STT := 0x0600_4000
  const HRAM_END := 0x0610_0000

  function Clamp(x: int, low: int, high: int): (r: int)
    requires low <= high
    ensures low <= r <= high
  {
    if x > high then high else if x < low then low else x
  }

  /** What one byte of memory holds afterwards, from memory before. */
  function Final(mem: seq<byte>, a: nat, src: nat, length: nat, dst: nat, lram: bool, hram: bool): byte
    requires a < |mem| && src + length <= |mem|
  {
    if dst <= a < dst + length then mem[src + (a - dst)]
    else if (lram && 0x20_0000 <= a < 0x2F_F800) || (hram && 0x600_4000 <= a < 0x610_0000) then 0
    else mem[a]
  }

  /** The overlap-safe copy. */
  method Move(mem: array<byte>, src: nat, length: nat, dst: nat)
    requires src + length <= mem.Length && dst + length <= mem.Length
    modifies mem
    ensures forall a :: 0 <= a < mem.Length ==>
              mem[a] == if dst <= a < dst + length then old(mem[src + (a - dst)]) else old(mem[a])
  {
    var dstEnd := dst + length;
    if src != dst {
      if dst > src && dst < src + length {
        var ptr1: int, ptr2: int := src + length - 1, dstEnd - 1;
        while ptr2 + 1 != dst
          invariant dst - 1 <= ptr2 < dstEnd && ptr1 == ptr2 - (dst - src)
          invariant forall a :: 0 <= a < mem.Length ==>
                      mem[a] == if ptr2 < a < dstEnd then old(mem[src + (a - dst)]) else old(mem[a])
          decreases ptr2 + 1 - dst
        {
          mem[ptr2] := mem[ptr1];
          ptr2, ptr1 := ptr2 - 1, ptr1 - 1;
        }
      } else {
        var ptr1, ptr2 := src, dst;
        while ptr2 != dstEnd
          invariant dst <= ptr2 <= dstEnd && ptr1 == src + (ptr2 - dst)
          invariant forall a :: 0 <= a < mem.Length ==>
                      mem[a] == if dst <= a < ptr2 then old(mem[src + (a - dst)]) else old(mem[a])
          decreases dstEnd - ptr2
        {
          mem[ptr2] := mem[ptr1];
          ptr2, ptr1 := ptr2 + 1, ptr1 + 1;
        }
      }
    }
  }

  /** Zeroes stt..end, counting down. */
  method Erase(mem: array<byte>, stt: nat, end: nat)
    requires stt <= end <= mem.Length
    modifies mem
    ensures forall a :: 0 <= a < mem.Length ==> mem[a] == if stt <= a < end then 0 else old(mem[a])
  {
    var ptr := stt;
    var length := end - stt;
    while length != 0
      invariant 0 <= length && ptr == end - length && stt <= ptr
      invariant forall a :: 0 <= a < mem.Length ==> mem[a] == if stt <= a < ptr then 0 else old(mem[a])
    {
      mem[ptr] := 0;
      ptr := ptr + 1;
      length := length - 1;
    }
  }

  /**
   _main, up to the jump into the program: every byte of memory, exactly. The source asks
   for a target that leaves the stub alone.
   */
  method Run(mem: array<byte>, src: nat, length: nat, dst: nat, lram: bool, hram: bool)
    requires HRAM_END <= mem.Length && src + length <= mem.Length && dst + length <= mem.Length
    modifies mem
    ensures forall a :: 0 <= a < mem.Length ==> mem[a] == Final(old(mem[..]), a, src, length, dst, lram, hram)
  {
    var dstEnd := dst + length;
    Move(mem, src, length, dst);
    ghost var moved := mem[..];
    for i := 0 to 2
      invariant forall a :: 0 <= a < mem.Length ==>
                  mem[a] == if dst <= a < dstEnd then moved[a]
                            else if (i > 0 && lram && LRAM_STT <= a < LRAM_END)
                                 || (i > 1 && hram && HRAM_STT <= a < HRAM_END) then 0
                            else moved[a]
    {
      ghost var was := mem[..];
      var lo, hi, clear := LRAM_STT, LRAM_END, lram;
      if i == 1 { lo, hi, clear := HRAM_STT, HRAM_END, hram; }
      for j := 0 to 2
        invariant forall a :: 0 <= a < mem.Length ==>
                    mem[a] == if clear && ((j > 0 && lo <= a < hi && a < dst) || (j > 1 && lo <= a < hi && dstEnd <= a))
                              then 0 else was[a]
      {
        var stt, end := lo, Clamp(dst, lo, hi);
        if j == 1 { stt, end := Clamp(dstEnd, lo, hi), hi; }
        if clear { Erase(mem, stt, end); }
      }
    }
  }
}
