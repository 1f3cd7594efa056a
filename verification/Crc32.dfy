/**
 The CRC-32 of section 8 of RFC 1952: reflected polynomial 0xEDB88320, register and result
 complemented. The table-driven loop computes the bitwise definition.
 */
module Crc32 {
  const ROW00: seq<bv32> := [0x00000000, 0x77073096, 0xee0e612c, 0x990951ba, 0x076dc419, 0x706af48f, 0xe963a535, 0x9e6495a3]
  const ROW01: seq<bv32> := [0x0edb8832, 0x79dcb8a4, 0xe0d5e91e, 0x97d2d988, 0x09b64c2b, 0x7eb17cbd, 0xe7b82d07, 0x90bf1d91]
  const ROW02: seq<bv32> := [0x1db71064, 0x6ab020f2, 0xf3b97148, 0x84be41de, 0x1adad47d, 0x6ddde4eb, 0xf4d4b551, 0x83d385c7]
  const ROW03: seq<bv32> := [0x136c9856, 0x646ba8c0, 0xfd62f97a, 0x8a65c9ec, 0x14015c4f, 0x63066cd9, 0xfa0f3d63, 0x8d080df5]
  const ROW04: seq<bv32> := [0x3b6e20c8, 0x4c69105e, 0xd56041e4, 0xa2677172, 0x3c03e4d1, 0x4b04d447, 0xd20d85fd, 0xa50ab56b]
  const ROW05: seq<bv32> := [0x35b5a8fa, 0x42b2986c, 0xdbbbc9d6, 0xacbcf940, 0x32d86ce3, 0x45df5c75, 0xdcd60dcf, 0xabd13d59]
  const ROW06: seq<bv32> := [0x26d930ac, 0x51de003a, 0xc8d75180, 0xbfd06116, 0x21b4f4b5, 0x56b3c423, 0xcfba9599, 0xb8bda50f]
  const ROW07: seq<bv32> := [0x2802b89e, 0x5f058808, 0xc60cd9b2, 0xb10be924, 0x2f6f7c87, 0x58684c11, 0xc1611dab, 0xb6662d3d]
  const ROW08: seq<bv32> := [0x76dc4190, 0x01db7106, 0x98d220bc, 0xefd5102a, 0x71b18589, 0x06b6b51f, 0x9fbfe4a5, 0xe8b8d433]
  const ROW09: seq<bv32> := [0x7807c9a2, 0x0f00f934, 0x9609a88e, 0xe10e9818, 0x7f6a0dbb, 0x086d3d2d, 0x91646c97, 0xe6635c01]
  const ROW0A: seq<bv32> := [0x6b6b51f4, 0x1c6c6162, 0x856530d8, 0xf262004e, 0x6c0695ed, 0x1b01a57b, 0x8208f4c1, 0xf50fc457]
  const ROW0B: seq<bv32> := [0x65b0d9c6, 0x12b7e950, 0x8bbeb8ea, 0xfcb9887c, 0x62dd1ddf, 0x15da2d49, 0x8cd37cf3, 0xfbd44c65]
  const ROW0C: seq<bv32> := [0x4db26158, 0x3ab551ce, 0xa3bc0074, 0xd4bb30e2, 0x4adfa541, 0x3dd895d7, 0xa4d1c46d, 0xd3d6f4fb]
  const ROW0D: seq<bv32> := [0x4369e96a, 0x346ed9fc, 0xad678846, 0xda60b8d0, 0x44042d73, 0x33031de5, 0xaa0a4c5f, 0xdd0d7cc9]
  const ROW0E: seq<bv32> := [0x5005713c, 0x270241aa, 0xbe0b1010, 0xc90c2086, 0x5768b525, 0x206f85b3, 0xb966d409, 0xce61e49f]
  const ROW0F: seq<bv32> := [0x5edef90e, 0x29d9c998, 0xb0d09822, 0xc7d7a8b4, 0x59b33d17, 0x2eb40d81, 0xb7bd5c3b, 0xc0ba6cad]
  const ROW10: seq<bv32> := [0xedb88320, 0x9abfb3b6, 0x03b6e20c, 0x74b1d29a, 0xead54739, 0x9dd277af, 0x04db2615, 0x73dc1683]
  const ROW11: seq<bv32> := [0xe3630b12, 0x94643b84, 0x0d6d6a3e, 0x7a6a5aa8, 0xe40ecf0b, 0x9309ff9d, 0x0a00ae27, 0x7d079eb1]
  const ROW12: seq<bv32> := [0xf00f9344, 0x8708a3d2, 0x1e01f268, 0x6906c2fe, 0xf762575d, 0x806567cb, 0x196c3671, 0x6e6b06e7]
  const ROW13: seq<bv32> := [0xfed41b76, 0x89d32be0, 0x10da7a5a, 0x67dd4acc, 0xf9b9df6f, 0x8ebeeff9, 0x17b7be43, 0x60b08ed5]
  const ROW14: seq<bv32> := [0xd6d6a3e8, 0xa1d1937e, 0x38d8c2c4, 0x4fdff252, 0xd1bb67f1, 0xa6bc5767, 0x3fb506dd, 0x48b2364b]
  const ROW15: seq<bv32> := [0xd80d2bda, 0xaf0a1b4c, 0x36034af6, 0x41047a60, 0xdf60efc3, 0xa867df55, 0x316e8eef, 0x4669be79]
  const ROW16: seq<bv32> := [0xcb61b38c, 0xbc66831a, 0x256fd2a0, 0x5268e236, 0xcc0c7795, 0xbb0b4703, 0x220216b9, 0x5505262f]
  const ROW17: seq<bv32> := [0xc5ba3bbe, 0xb2bd0b28, 0x2bb45a92, 0x5cb36a04, 0xc2d7ffa7, 0xb5d0cf31, 0x2cd99e8b, 0x5bdeae1d]
  const ROW18: seq<bv32> := [0x9b64c2b0, 0xec63f226, 0x756aa39c, 0x026d930a, 0x9c0906a9, 0xeb0e363f, 0x72076785, 0x05005713]
  const ROW19: seq<bv32> := [0x95bf4a82, 0xe2b87a14, 0x7bb12bae, 0x0cb61b38, 0x92d28e9b, 0xe5d5be0d, 0x7cdcefb7, 0x0bdbdf21]
  const ROW1A: seq<bv32> := [0x86d3d2d4, 0xf1d4e242, 0x68ddb3f8, 0x1fda836e, 0x81be16cd, 0xf6b9265b, 0x6fb077e1, 0x18b74777]
  const ROW1B: seq<bv32> := [0x88085ae6, 0xff0f6a70, 0x66063bca, 0x11010b5c, 0x8f659eff, 0xf862ae69, 0x616bffd3, 0x166ccf45]
  const ROW1C: seq<bv32> := [0xa00ae278, 0xd70dd2ee, 0x4e048354, 0x3903b3c2, 0xa7672661, 0xd06016f7, 0x4969474d, 0x3e6e77db]
  const ROW1D: seq<bv32> := [0xaed16a4a, 0xd9d65adc, 0x40df0b66, 0x37d83bf0, 0xa9bcae53, 0xdebb9ec5, 0x47b2cf7f, 0x30b5ffe9]
  const ROW1E: seq<bv32> := [0xbdbdf21c, 0xcabac28a, 0x53b39330, 0x24b4a3a6, 0xbad03605, 0xcdd70693, 0x54de5729, 0x23d967bf]
  const ROW1F: seq<bv32> := [0xb3667a2e, 0xc4614ab8, 0x5d681b02, 0x2a6f2b94, 0xb40bbe37, 0xc30c8ea1, 0x5a05df1b, 0x2d02ef8d]

  /** The 256-entry table, eight entries a row. */
  const TABLE: seq<seq<bv32>> := [
    ROW00, ROW01, ROW02, ROW03, ROW04, ROW05, ROW06, ROW07,
    ROW08, ROW09, ROW0A, ROW0B, ROW0C, ROW0D, ROW0E, ROW0F,
    ROW10, ROW11, ROW12, ROW13, ROW14, ROW15, ROW16, ROW17,
    ROW18, ROW19, ROW1A, ROW1B, ROW1C, ROW1D, ROW1E, ROW1F]

  function Entry(i: nat): bv32
    requires i < 256
  {
    TABLE[i / 8][i % 8]
  }

  function Xor(a: bv32, b: bv32): bv32 { a ^ b }

  function Low(c: bv32): bv32 { c & 0xFF }

  function Shr8(c: bv32): bv32 { c >> 8 }

  /** One bit of the register, lowest bit first. */
  function Down(c: bv32): bv32 { if c & 1 != 0 then 0xEDB88320 ^ (c >> 1) else c >> 1 }

  function Down2(c: bv32): bv32 { Down(Down(c)) }

  function Down4(c: bv32): bv32 { Down2(Down2(c)) }

  /** Eight bits. */
  function Down8(c: bv32): bv32 { Down4(Down4(c)) }

  /** The register after eight bits of a byte. */
  function ByteRegister(n: nat): bv32
    requires n < 256
  {
    Down8(n as bv32)
  }

  /** A row of the table holds the registers of eight consecutive bytes. */
  ghost predicate RowIs(row: seq<bv32>, base: nat)
    requires base <= 248
  {
    && |row| == 8
    && row[0] == ByteRegister(base + 0) && row[1] == ByteRegister(base + 1)
    && row[2] == ByteRegister(base + 2) && row[3] == ByteRegister(base + 3)
    && row[4] == ByteRegister(base + 4) && row[5] == ByteRegister(base + 5)
    && row[6] == ByteRegister(base + 6) && row[7] == ByteRegister(base + 7)
  }

  lemma RowEntry(row: seq<bv32>, base: nat, k: nat)
    requires base <= 248 && RowIs(row, base) && k < 8
    ensures row[k] == ByteRegister(base + k)
  {
    hide ByteRegister;
    if k < 4 { if k == 0 {} else if k == 1 {} else if k == 2 {} else {} }
    else { if k == 4 {} else if k == 5 {} else if k == 6 {} else {} }
  }

  lemma TableRow00() ensures RowIs(ROW00, 0) {}
  lemma TableRow01() ensures RowIs(ROW01, 8) {}
  lemma TableRow02() ensures RowIs(ROW02, 16) {}
  lemma TableRow03() ensures RowIs(ROW03, 24) {}
  lemma TableRow04() ensures RowIs(ROW04, 32) {}
  lemma TableRow05() ensures RowIs(ROW05, 40) {}
  lemma TableRow06() ensures RowIs(ROW06, 48) {}
  lemma TableRow07() ensures RowIs(ROW07, 56) {}
  lemma TableRow08() ensures RowIs(ROW08, 64) {}
  lemma TableRow09() ensures RowIs(ROW09, 72) {}
  lemma TableRow0A() ensures RowIs(ROW0A, 80) {}
  lemma TableRow0B() ensures RowIs(ROW0B, 88) {}
  lemma TableRow0C() ensures RowIs(ROW0C, 96) {}
  lemma TableRow0D() ensures RowIs(ROW0D, 104) {}
  lemma TableRow0E() ensures RowIs(ROW0E, 112) {}
  lemma TableRow0F() ensures RowIs(ROW0F, 120) {}
  lemma TableRow10() ensures RowIs(ROW10, 128) {}
  lemma TableRow11() ensures RowIs(ROW11, 136) {}
  lemma TableRow12() ensures RowIs(ROW12, 144) {}
  lemma TableRow13() ensures RowIs(ROW13, 152) {}
  lemma TableRow14() ensures RowIs(ROW14, 160) {}
  lemma TableRow15() ensures RowIs(ROW15, 168) {}
  lemma TableRow16() ensures RowIs(ROW16, 176) {}
  lemma TableRow17() ensures RowIs(ROW17, 184) {}
  lemma TableRow18() ensures RowIs(ROW18, 192) {}
  lemma TableRow19() ensures RowIs(ROW19, 200) {}
  lemma TableRow1A() ensures RowIs(ROW1A, 208) {}
  lemma TableRow1B() ensures RowIs(ROW1B, 216) {}
  lemma TableRow1C() ensures RowIs(ROW1C, 224) {}
  lemma TableRow1D() ensures RowIs(ROW1D, 232) {}
  lemma TableRow1E() ensures RowIs(ROW1E, 240) {}
  lemma TableRow1F() ensures RowIs(ROW1F, 248) {}

  lemma TableQuarter0(r: nat)
    requires 0 <= r < 8
    ensures RowIs(TABLE[r], 8 * r)
  {
    hide RowIs;
    if r < 4 { if r == 0 { TableRow00(); } else if r == 1 { TableRow01(); } else if r == 2 { TableRow02(); } else { TableRow03(); } }
    else { if r == 4 { TableRow04(); } else if r == 5 { TableRow05(); } else if r == 6 { TableRow06(); } else { TableRow07(); } }
  }

  lemma TableQuarter1(r: nat)
    requires 8 <= r < 16
    ensures RowIs(TABLE[r], 8 * r)
  {
    hide RowIs;
    if r < 12 { if r == 8 { TableRow08(); } else if r == 9 { TableRow09(); } else if r == 10 { TableRow0A(); } else { TableRow0B(); } }
    else { if r == 12 { TableRow0C(); } else if r == 13 { TableRow0D(); } else if r == 14 { TableRow0E(); } else { TableRow0F(); } }
  }

  lemma TableQuarter2(r: nat)
    requires 16 <= r < 24
    ensures RowIs(TABLE[r], 8 * r)
  {
    hide RowIs;
    if r < 20 { if r == 16 { TableRow10(); } else if r == 17 { TableRow11(); } else if r == 18 { TableRow12(); } else { TableRow13(); } }
    else { if r == 20 { TableRow14(); } else if r == 21 { TableRow15(); } else if r == 22 { TableRow16(); } else { TableRow17(); } }
  }

  lemma TableQuarter3(r: nat)
    requires 24 <= r < 32
    ensures RowIs(TABLE[r], 8 * r)
  {
    hide RowIs;
    if r < 28 { if r == 24 { TableRow18(); } else if r == 25 { TableRow19(); } else if r == 26 { TableRow1A(); } else { TableRow1B(); } }
    else { if r == 28 { TableRow1C(); } else if r == 29 { TableRow1D(); } else if r == 30 { TableRow1E(); } else { TableRow1F(); } }
  }

  /** Every entry of the table is the register after eight bits. */
  lemma EntryIsDown8(i: nat)
    requires i < 256
    ensures Entry(i) == ByteRegister(i)
  {
    hide RowIs;
    hide Down8;
    hide ByteRegister;
    if i < 64 { TableQuarter0(i / 8); } else if i < 128 { TableQuarter1(i / 8); }
    else if i < 192 { TableQuarter2(i / 8); } else { TableQuarter3(i / 8); }
    RowEntry(TABLE[i / 8], i / 8 * 8, i % 8);
  }

  lemma DownBothClear(x: bv32, y: bv32)
    requires x & 1 == 0 && y & 1 == 0
    ensures Down(Xor(x, y)) == Xor(Down(x), Down(y))
  {
  }

  lemma DownFirstSet(x: bv32, y: bv32)
    requires x & 1 == 1 && y & 1 == 0
    ensures Down(Xor(x, y)) == Xor(Down(x), Down(y))
  {
  }

  lemma DownSecondSet(x: bv32, y: bv32)
    requires x & 1 == 0 && y & 1 == 1
    ensures Down(Xor(x, y)) == Xor(Down(x), Down(y))
  {
  }

  lemma DownBothSet(x: bv32, y: bv32)
    requires x & 1 == 1 && y & 1 == 1
    ensures Down(Xor(x, y)) == Xor(Down(x), Down(y))
  {
  }

  lemma DownLinear(x: bv32, y: bv32)
    ensures Down(Xor(x, y)) == Xor(Down(x), Down(y))
  {
    hide Down;
    hide Xor;
    if x & 1 == 0 {
      if y & 1 == 0 { DownBothClear(x, y); } else { DownSecondSet(x, y); }
    } else {
      if y & 1 == 0 { DownFirstSet(x, y); } else { DownBothSet(x, y); }
    }
  }

  /** Eight steps are linear as well. */
  lemma Down8Linear(x: bv32, y: bv32)
    ensures Down8(Xor(x, y)) == Xor(Down8(x), Down8(y))
  {
    hide Down;
    hide Xor;
    var x1 := Down(x); var x2 := Down(x1); var x3 := Down(x2); var x4 := Down(x3);
    var x5 := Down(x4); var x6 := Down(x5); var x7 := Down(x6);
    var y1 := Down(y); var y2 := Down(y1); var y3 := Down(y2); var y4 := Down(y3);
    var y5 := Down(y4); var y6 := Down(y5); var y7 := Down(y6);
    DownLinear(x, y); DownLinear(x1, y1); DownLinear(x2, y2); DownLinear(x3, y3);
    DownLinear(x4, y4); DownLinear(x5, y5); DownLinear(x6, y6); DownLinear(x7, y7);
  }

  /** The upper bits only move down. */
  lemma UpperMovesDown(h: bv32)
    requires Low(h) == 0
    ensures Down8(h) == Shr8(h)
  {
  }

  function Upper(c: bv32): bv32 { c & 0xFFFFFF00 }

  lemma SplitWord(x: bv32)
    ensures Xor(Low(x), Upper(x)) == x && Low(Upper(x)) == 0
  {
  }

  lemma UpperUnchanged(c: bv32, b: bv8)
    ensures Shr8(Upper(Xor(c, b as bv32))) == Shr8(c)
  {
  }

  lemma IndexIsLow(x: bv32)
    ensures (Low(x) as int) < 256 && (Low(x) as int) as bv32 == Low(x)
  {
  }

  /** One byte: the low byte of the register goes through the table, the rest moves down. */
  lemma TableStep(c: bv32, b: bv8)
    ensures var x := Xor(c, b as bv32);
            (Low(x) as int) < 256 && Xor(Entry(Low(x) as int), Shr8(c)) == Down8(x)
  {
    var x := Xor(c, b as bv32);
    IndexIsLow(x);
    hide Xor;
    hide Low;
    hide Shr8;
    hide Upper;
    hide Entry;
    hide Down8;
    EntryIsDown8(Low(x) as int);
    SplitWord(x);
    UpperMovesDown(Upper(x));
    UpperUnchanged(c, b);
    Down8Linear(Low(x), Upper(x));
  }

  const ONES: bv32 := 0xFFFFFFFF

  /** The register after a message. */
  function Register(c: bv32, msg: seq<bv8>): bv32
    decreases |msg|
  {
    if msg == [] then c else Register(Down8(Xor(c, msg[0] as bv32)), msg[1..])
  }

  /** The checksum of a message that continues one with checksum crc. */
  function Checksum(crc: bv32, msg: seq<bv8>): bv32 {
    Xor(Register(Xor(crc, ONES), msg), ONES)
  }

  lemma RegisterFirst(c: bv32, msg: seq<bv8>, i: nat)
    requires i <= |msg|
    ensures Register(c, msg[i..]) ==
            if i == |msg| then c else Register(Down8(Xor(c, msg[i] as bv32)), msg[i + 1..])
  {
    hide Down8;
    hide Xor;
    if i < |msg| { assert msg[i..][1..] == msg[i + 1..]; }
  }

  /** crc32_update, over the table. */
  method Crc32Update(crc: bv32, data: seq<bv8>) returns (r: bv32)
    ensures r == Checksum(crc, data)
  {
    hide Register;
    hide Down8;
    hide Entry;
    hide Xor;
    hide Low;
    hide Shr8;
    r := Xor(crc, ONES);
    var i := 0;
    assert data[0..] == data;
    while i < |data|
      invariant 0 <= i <= |data|
      invariant Register(r, data[i..]) == Register(Xor(crc, ONES), data)
    {
      TableStep(r, data[i]);
      RegisterFirst(r, data, i);
      r := Xor(Entry(Low(Xor(r, data[i] as bv32)) as int), Shr8(r));
      i := i + 1;
    }
    RegisterFirst(r, data, i);
    r := Xor(r, ONES);
  }

  lemma {:induction false} RegisterAppend(c: bv32, a: seq<bv8>, b: seq<bv8>)
    ensures Register(c, a + b) == Register(Register(c, a), b)
    decreases |a|
  {
    hide Down8;
    hide Xor;
    if a == [] {
      assert a + b == b;
    } else {
      assert (a + b)[1..] == a[1..] + b;
      RegisterAppend(Down8(Xor(c, a[0] as bv32)), a[1..], b);
    }
  }

  lemma Complement(c: bv32)
    ensures Xor(Xor(c, ONES), ONES) == c
  {
  }

  /** Updating over a, then over b, is updating over both. */
  lemma ChecksumAppend(crc: bv32, a: seq<bv8>, b: seq<bv8>)
    ensures Checksum(crc, a + b) == Checksum(Checksum(crc, a), b)
  {
    hide Register;
    hide Xor;
    RegisterAppend(Xor(crc, ONES), a, b);
    Complement(Register(Xor(crc, ONES), a));
  }
}
