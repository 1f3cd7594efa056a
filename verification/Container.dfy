/**
 comp_exec / decomp_exec: a one-byte header (compression flag, width of the size field), the
 original size when compressed, then either an LZF stream or the bytes as they are.
 */
module Container {
  import opened Bytes
  import opened LzfFormat
  import opened LzfParse
  import opened LzfConstant
  import opened Compressor
  import opened Decompressor

  // Shifting a header byte of 0x80 or more by 24 leaves the range of the source's int.
  const SIZE_LIMIT := 0x8000_0000

  datatype Unpacked =
    | Content(data: seq<byte>)
    | Rejected  // the reader reports 0
    | Broken    // the reader runs past the end of the block

  /** The big-endian size field of `width` bytes that follows the first header byte. */
  function SizeField(s: seq<byte>, width: nat): (r: nat)
    requires width in {1, 2, 4} && 1 + width <= |s|
  {
    if width == 4 then Be32(s[1..5])
    else if width == 2 then Be16(s[1..3])
    else s[1] as int
  }

  /** The size field is big-endian. */
  lemma SizeFieldIs(s: seq<byte>)
    ensures |s| > 1 ==> SizeField(s, 1) == s[1] as int
    ensures |s| > 2 ==> SizeField(s, 2) == s[1] as int * 0x100 + s[2] as int
    ensures |s| > 4 ==> SizeField(s, 4) == s[1] as int * 0x100_0000 + s[2] as int * 0x1_0000 + s[3] as int * 0x100 + s[4] as int
  {
  }

  predicate ValidHeader(s: seq<byte>) {
    s != [] && s[0] / 16 <= 1 && s[0] as int % 16 in {1, 2, 4}
  }

  /** Room the reader may use, and the size it reports without decompressing. */
  function DeclaredSize(s: seq<byte>): (r: nat) {
    if !ValidHeader(s) then 0
    else if s[0] / 16 == 0 then |s| - 1
    else
      var width := s[0] as int % 16;
      if 1 + width <= |s| then SizeField(s, width) else 0
  }

  /** What a stored block stands for. */
  function Unpack(s: seq<byte>): Unpacked {
    if !ValidHeader(s) then Rejected
    else if s[0] / 16 == 0 then Content(s[1..])
    else
      var width := s[0] as int % 16;
      if |s| <= 1 + width then Broken
      else match Expand(s[1 + width..], [], DeclaredSize(s))
        case Done(d) => Content(d)
        case Overrun => Broken
        case _ => Rejected
  }

  /** s stores exactly data, and announces its length. */
  ghost predicate Stores(s: seq<byte>, data: seq<byte>) {
    Unpack(s) == Content(data) && DeclaredSize(s) == |data|
  }

  /** Writes the size field most significant byte first. */
  method SetSizeField(out: array<byte>, base: nat, width: nat, val: nat)
    requires width in {1, 2, 4} && base + 1 + width <= out.Length
    requires width == 1 ==> val < 0x100
    requires width == 2 ==> val < 0x1_0000
    requires width == 4 ==> val < SIZE_LIMIT
    modifies out
    ensures SizeField(out[base..base + 1 + width], width) == val
    ensures forall i :: 0 <= i < out.Length && !(base + 1 <= i < base + 1 + width) ==> out[i] == old(out[i])
  {
    if width == 4 {
      Be32Digits(val);
      out[base + 1] := val / 0x100_0000 % 256;
      out[base + 2] := val / 0x1_0000 % 256;
      out[base + 3] := val / 0x100 % 256;
      out[base + 4] := val % 256;
      assert out[base..base + 5][1..5] == [out[base + 1], out[base + 2], out[base + 3], out[base + 4]];
    } else if width == 2 {
      Be16Digits(val);
      out[base + 1] := val / 0x100 % 256;
      out[base + 2] := val % 256;
      assert out[base..base + 3][1..3] == [out[base + 1], out[base + 2]];
    } else {
      out[base + 1] := val % 256;
    }
  }

  /** A header in front of an LZF stream. */
  lemma PackedStores(s: seq<byte>, width: nat, data: seq<byte>)
    requires width in {1, 2, 4} && |s| > 1 + width && s[0] as int == 16 + width
    requires SizeField(s[..1 + width], width) == |data|
    requires Expand(s[1 + width..], [], |data|) == Done(data)
    ensures Stores(s, data)
  {
    hide Expand;
    assert s[0] / 16 == 1 && s[0] as int % 16 == width;
    if width == 4 {
      assert s[..5][1..5] == s[1..5];
    } else if width == 2 {
      assert s[..3][1..3] == s[1..3];
    }
  }

  /** A header in front of the bytes as they are. */
  lemma RawStores(s: seq<byte>, data: seq<byte>)
    requires s != [] && s[0] in {1, 2, 4} && s[1..] == data
    ensures Stores(s, data)
  {
  }

  /** Puts the header in front of the LZF stream that is already in place. */
  method FillHeader(ind: seq<byte>, out: array<byte>, base: nat, width: nat, lzf: nat) returns (r: nat)
    requires width in {1, 2, 4} && 0 < lzf && base + 1 + width + lzf <= out.Length
    requires |ind| < (if width == 1 then 0x100 else if width == 2 then 0x1_0000 else SIZE_LIMIT)
    requires Expand(out[base + 1 + width..base + 1 + width + lzf], [], |ind|) == Done(ind)
    modifies out
    ensures r == 1 + width + lzf && Stores(out[base..base + r], ind) && out[base] as int == 16 + width
    ensures forall i :: 0 <= i < out.Length && !(base <= i < base + 1 + width) ==> out[i] == old(out[i])
  {
    hide Expand;
    ghost var was := out[..];
    out[base] := 16 + width;
    SetSizeField(out, base, width, |ind|);
    HeaderInFront(was, out[..], base, width, lzf);
    r := 1 + width + lzf;
    PackedStores(out[base..base + r], width, ind);
  }

  lemma HeaderInFront(was: seq<byte>, now: seq<byte>, base: nat, width: nat, lzf: nat)
    requires |was| == |now| && base + 1 + width + lzf <= |now|
    requires forall i :: base + 1 + width <= i < |now| ==> now[i] == was[i]
    ensures var at, s := base + 1 + width, now[base..base + (1 + width + lzf)];
            s[1 + width..] == was[at..at + lzf] && s[..1 + width] == now[base..at] && s[0] == now[base]
  {
    var at, s := base + 1 + width, now[base..base + (1 + width + lzf)];
    assert s[1 + width..] == now[at..at + lzf];
  }

  /** Puts a header without a size in front of the bytes as they are. */
  method FillRaw(ind: seq<byte>, out: array<byte>, base: nat, width: nat) returns (r: nat)
    requires width in {1, 2, 4} && base + 1 + |ind| <= out.Length
    modifies out
    ensures r == 1 + |ind| && Stores(out[base..base + r], ind) && out[base] == width
    ensures forall i :: 0 <= i < out.Length && !(base <= i < base + 1 + |ind|) ==> out[i] == old(out[i])
  {
    hide Stores;
    hide Unpack;
    hide DeclaredSize;
    out[base] := width;
    Memcpy(out, base + 1, ind);
    ghost var s := out[base..base + 1 + |ind|];
    assert s[1..] == out[base + 1..base + 1 + |ind|];
    RawStores(s, ind);
    r := 1 + |ind|;
  }

  /** Length of the header: one byte, and the size field. */
  function Header(n: nat): nat { if n > 65500 then 5 else if n > 240 then 3 else 2 }

  lemma HeaderNumbers(n: nat)
    ensures Header(n) == (if n > 65500 then 5 else if n > 240 then 3 else 2) && SIZE_LIMIT == 0x8000_0000
  {
  }

  /** A buffer whose stream and header are five bytes shorter is compressed. */
  lemma ShortStreamFits(ind: seq<byte>, idx: Hash)
    requires |ind| > 2 && Header(|ind|) + |Stream(ind, idx)| + 5 <= |ind|
    ensures Fits(ind, idx, |ind| - Header(|ind|) - 1)
  {
    StreamLaws(ind, idx, |ind| - Header(|ind|) - 1);
    hide *;
  }

  /** Sixteen or more equal bytes are compressed. */
  lemma EqualBytesFit(ind: seq<byte>, idx: Hash)
    requires |ind| >= 16 && forall i :: 0 <= i < |ind| ==> ind[i] == ind[0]
    ensures |Stream(ind, idx)| <= 3 * (|ind| / 264) + 9 && Fits(ind, idx, |ind| - Header(|ind|) - 1)
  {
    ConstantForm(ind);
    ConstantStream(ind, idx);
    hide Stream;
    hide Fits;
    hide Constant;
    assert Header(|ind|) + 3 * (|ind| / 264) + 14 <= |ind|;
    ShortStreamFits(ind, idx);
  }

  /** The LZF stream, where there is room for it behind the header and it saves at least a byte. */
  method TryStream(ind: seq<byte>, out: array<byte>, base: nat, at: nat, idx: Hash) returns (lzf: nat)
    requires at == base + Header(|ind|) && base + |ind| + 1 <= out.Length
    modifies out
    ensures lzf > 0 <==> |ind| > 2 && Fits(ind, idx, |ind| - Header(|ind|) - 1)
    ensures lzf > 0 ==> lzf == |Stream(ind, idx)| && at + lzf < base + |ind|
    ensures lzf > 0 ==> Expand(out[at..at + lzf], [], |ind|) == Done(ind)
    ensures forall i :: 0 <= i < out.Length && !(base <= i < base + |ind| + 1) ==> out[i] == old(out[i])
  {
    hide Expand;
    hide Fits;
    hide Stream;
    lzf := 0;
    if |ind| > 2 {
      lzf := LzfCompress(ind, out, at, |ind| - Header(|ind|) - 1, idx);
    }
  }

  /** Stores `ind` at out[base..]; the result is the stored size. The source's hash function is IDX. */
  method CompExec(ind: seq<byte>, out: array<byte>, base: nat, idx: Hash) returns (r: nat)
    requires |ind| < SIZE_LIMIT
    requires base + |ind| + 1 <= out.Length
    modifies out
    ensures base + r <= out.Length && Stores(out[base..base + r], ind)
    ensures if out[base] / 16 == 1 then r < |ind| else r == |ind| + 1
    ensures out[base] / 16 == 1 <==> |ind| > 2 && Fits(ind, idx, |ind| - Header(|ind|) - 1)
    ensures out[base] as int % 16 == (if |ind| > 65500 then 4 else if |ind| > 240 then 2 else 1)
    ensures out[base] / 16 == 1 ==> r == 1 + out[base] as int % 16 + |Stream(ind, idx)|
    ensures |ind| >= 16 && (forall i :: 0 <= i < |ind| ==> ind[i] == ind[0]) ==>
              out[base] / 16 == 1 && r <= 3 * (|ind| / 264) + 14
    ensures forall i :: 0 <= i < out.Length && !(base <= i < base + |ind| + 1) ==> out[i] == old(out[i])
  {
    hide *;
    HeaderNumbers(|ind|);
    var inl := |ind|;
    var width := if inl > 65500 then 4 else if inl > 240 then 2 else 1;
    var lzf := TryStream(ind, out, base, base + 1 + width, idx);
    if lzf == 0 {
      r := FillRaw(ind, out, base, width);
    } else {
      r := FillHeader(ind, out, base, width, lzf);
    }
    if inl >= 16 && forall i :: 0 <= i < inl ==> ind[i] == ind[0] { EqualBytesFit(ind, idx); }
  }

  /** Reads a stored block into out[base..]; the result is the number of bytes, 0 on a bad block. */
  method DecompExec(ind: seq<byte>, out: array<byte>, base: nat) returns (r: nat)
    requires !Unpack(ind).Broken?
    requires base + DeclaredSize(ind) <= out.Length
    modifies out
    ensures var u := Unpack(ind);
            && r == (if u.Content? then |u.data| else 0)
            && (u.Content? ==> r <= DeclaredSize(ind) && out[base..base + r] == u.data)
    ensures forall i :: 0 <= i < out.Length && !(base <= i < base + DeclaredSize(ind)) ==> out[i] == old(out[i])
  {
    hide Expand;
    hide Be16;
    hide Be32;
    if |ind| == 0 { return 0; }
    var flag, width := ind[0] / 16, ind[0] as int % 16;
    if flag > 1 || (width != 1 && width != 2 && width != 4) { return 0; }
    if flag == 1 {
      var outl := SizeField(ind, width);
      r := LzfDecompress(ind[1 + width..], out, base, outl);
    } else {
      var outl := |ind| - 1;
      Memcpy(out, base, ind[1..]);
      r := outl;
    }
  }

  /** The bare compressor and decompressor: whatever was compressed comes back, in exactly its own room. */
  method LzfRoundTrip(input: seq<byte>, packed: array<byte>, outLen: nat, unpacked: array<byte>, idx: Hash)
    returns (r: nat, n: nat)
    requires outLen <= packed.Length && |input| <= unpacked.Length && packed != unpacked
    requires |input| == 1 ==> outLen == 0
    modifies packed, unpacked
    ensures r <= outLen && 32 * r <= 33 * |input| + 31
    ensures |input| > 0 && outLen >= |input| + |input| / 32 + 4 ==> r > 0
    ensures r > 0 ==> n == |input| && unpacked[..n] == input
  {
    hide *;
    n := 0;
    r := LzfCompress(input, packed, 0, outLen, idx);
    if r > 0 { n := LzfDecompress(packed[0..r], unpacked, 0, |input|); }
    assert n > 0 ==> unpacked[..n] == unpacked[0..n];
  }

  /** Storing a buffer and reading it back, with the size announced in between. */
  method StoreThenLoad(data: seq<byte>, stored: array<byte>, loaded: array<byte>, idx: Hash) returns (size: nat, r: nat)
    requires |data| < SIZE_LIMIT && stored != loaded
    requires |data| + 1 <= stored.Length && |data| <= loaded.Length
    modifies stored, loaded
    ensures size == r == |data| && loaded[..r] == data
  {
    hide Expand;
    var n := CompExec(data, stored, 0, idx);
    size := DeclaredSize(stored[0..n]);
    r := DecompExec(stored[0..n], loaded, 0);
  }
}
