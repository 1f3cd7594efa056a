/** Bytes and the two byte orders used by the stored formats. */
module Bytes {
  type byte = x: int | 0 <= x < 256

  /** The value of four bytes, most significant first. */
  function Be32(s: seq<byte>): (r: nat)
    requires |s| == 4
    ensures r < 0x1_0000_0000
  {
    s[0] as int * 0x100_0000 + s[1] as int * 0x1_0000 + s[2] as int * 0x100 + s[3] as int
  }

  /** The value of two bytes, most significant first. */
  function Be16(s: seq<byte>): (r: nat)
    requires |s| == 2
    ensures r < 0x1_0000
  {
    s[0] as int * 0x100 + s[1] as int
  }

  function Be32Bytes(val: nat): (r: seq<byte>)
    ensures |r| == 4
  {
    [val / 0x100_0000 % 256, val / 0x1_0000 % 256, val / 0x100 % 256, val % 256]
  }

  lemma Be32Digits(val: nat)
    requires val < 0x1_0000_0000
    ensures Be32(Be32Bytes(val)) == val
  {
    var a := val / 0x100;
    var b := a / 0x100;
    var c := b / 0x100;
    assert val == a * 0x100 + val % 256 && a == b * 0x100 + a % 256 && b == c * 0x100 + b % 256;
    assert b == val / 0x1_0000 && c == val / 0x100_0000;
  }

  lemma Be16Digits(val: nat)
    requires val < 0x1_0000
    ensures Be16([val / 0x100 % 256, val % 256]) == val
  {
  }

  /** memcpy between two separate buffers. */
  method Memcpy(out: array<byte>, at: nat, s: seq<byte>)
    requires at + |s| <= out.Length
    modifies out
    ensures out[at..at + |s|] == s
    ensures forall i :: 0 <= i < out.Length && !(at <= i < at + |s|) ==> out[i] == old(out[i])
  {
    for i := 0 to |s|
      invariant out[at..at + i] == s[..i]
      invariant forall k :: 0 <= k < out.Length && !(at <= k < at + i) ==> out[k] == old(out[k])
    {
      out[at + i] := s[i];
      assert out[at..at + i + 1] == out[at..at + i] + [s[i]];
    }
  }
}
