/**
 Files of a ROM image: stored raw, or as a 4-byte size and a list of chunks, each one a
 2-byte length and a Container block of at most 8 KB of file data.
 */
module RomFile {
  import opened Bytes
  import opened LzfFormat
  import opened Container

  const CHUNK := 8192

  const FLAG_ENABLED := 0x01
  const FLAG_FOLDER := 0x02
  const FLAG_COMPRESSED := 0x20
  const FLAG_LASTENTRY := 0x40

  predicate Has(flags: byte, mask: nat)
    requires mask > 0
  {
    flags as int / mask % 2 == 1
  }

  /** The bytes from s on hold the chunks of data. */
  ghost predicate Chunked(s: seq<byte>, data: seq<byte>)
    decreases |data|
  {
    data == [] ||
    (|s| >= 2 && ChunkFits(s) &&
     match Unpack(Chunk(s)) {
       case Content(d) => 1 <= |d| <= 8192 && DeclaredSize(Chunk(s)) == |d| && d <= data
                          && Chunked(s[2 + Be16(s[..2])..], data[|d|..])
       case _ => false
     })
  }

  predicate ChunkFits(s: seq<byte>)
    requires |s| >= 2
  {
    2 + Be16(s[..2]) <= |s|
  }

  /** The block that follows the 2-byte length. */
  function Chunk(s: seq<byte>): seq<byte>
    requires |s| >= 2 && ChunkFits(s)
  {
    s[2..2 + Be16(s[..2])]
  }

  /** Any stored block can be put in front of a list of chunks. */
  lemma ChunkPrepends(block: seq<byte>, d: seq<byte>, rest: seq<byte>, data: seq<byte>)
    requires Stores(block, d) && 1 <= |d| <= CHUNK && |block| < 0x1_0000
    requires Chunked(rest, data)
    ensures Chunked([|block| / 256, |block| % 256] + block + rest, d + data)
  {
    hide Unpack;
    hide DeclaredSize;
    var s := [|block| / 256, |block| % 256] + block + rest;
    assert s[..2] == [|block| / 256, |block| % 256];
    assert Be16(s[..2]) == |block|;
    assert Chunk(s) == block;
    assert s[2 + |block|..] == rest;
    assert (d + data)[|d|..] == data;
  }

  function Min(a: nat, b: nat): nat { if a < b then a else b }

  /** The part of data[..k] that lies in offset..offset+size. */
  function Window(data: seq<byte>, offset: nat, size: nat, k: nat): (w: seq<byte>)
    requires k <= |data|
    ensures |w| <= size
  {
    data[Min(offset, k)..Min(offset + size, k)]
  }

  /** Of the whole file: from offset on, size bytes or what there is. */
  lemma WindowIs(data: seq<byte>, offset: nat, size: nat)
    ensures Window(data, offset, size, |data|) ==
            if offset > |data| then [] else if offset + size <= |data| then data[offset..offset + size] else data[offset..]
  {
  }

  lemma WindowGrows(data: seq<byte>, offset: nat, size: nat, k: nat)
    requires k < |data|
    ensures Window(data, offset, size, k + 1) ==
            Window(data, offset, size, k) + (if offset <= k < offset + size then [data[k]] else [])
  {
  }

  /** A longer prefix of the file has no smaller part in the window, and none after the window's end. */
  lemma {:induction false} WindowFits(data: seq<byte>, offset: nat, size: nat, k: nat)
    requires k <= |data|
    ensures Window(data, offset, size, k) <= Window(data, offset, size, |data|)
    ensures k >= offset + size ==> Window(data, offset, size, k) == Window(data, offset, size, |data|)
  {
  }

  /** Copies the bytes of one decompressed chunk that lie in the window. */
  method CopyWindow(buf: array<byte>, n: nat, ghost data: seq<byte>, at: nat,
                    out: array<byte>, base: nat, op: nat, offset: nat, size: nat) returns (op': nat)
    requires buf != out && n <= buf.Length && at + n <= |data| && buf[..n] == data[at..at + n]
    requires base <= op <= out.Length && out[base..op] == Window(data, offset, size, at)
    requires base + |Window(data, offset, size, |data|)| <= out.Length
    modifies out
    ensures op <= op' <= out.Length && out[base..op'] == Window(data, offset, size, at + n)
    ensures forall i :: 0 <= i < out.Length && !(base <= i < op') ==> out[i] == old(out[i])
  {
    hide Window;
    op' := op;
    for i := 0 to n
      invariant op <= op' <= out.Length && out[base..op'] == Window(data, offset, size, at + i)
      invariant forall k :: 0 <= k < out.Length && !(base <= k < op') ==> out[k] == old(out[k])
      invariant buf[..n] == data[at..at + n]
    {
      WindowGrows(data, offset, size, at + i);
      WindowFits(data, offset, size, at + i + 1);
      if offset <= at + i < offset + size {
        assert buf[i] == data[at..at + n][i];
        ghost var w := out[base..op'];
        out[op'] := buf[i];
        op' := op' + 1;
        assert out[base..op'] == w + [buf[i]];
      }
    }
  }

  /** A block of the file's bytes from `at` on. */
  ghost predicate StoresPart(block: seq<byte>, data: seq<byte>, at: nat) {
    var d := DeclaredSize(block);
    1 <= d <= CHUNK && at + d <= |data| && Unpack(block) == Content(data[at..at + d])
  }

  /** The bytes that such a block holds. */
  ghost function PartOf(block: seq<byte>, data: seq<byte>, at: nat): (d: seq<byte>)
    requires StoresPart(block, data, at)
    ensures 1 <= |d| <= CHUNK && at + |d| <= |data| && d == data[at..at + |d|]
    ensures Unpack(block) == Content(d) && DeclaredSize(block) == |d|
  {
    data[at..at + DeclaredSize(block)]
  }

  /** The chunk at rom[pos..] holds the next bytes of the file, and further chunks follow it. */
  lemma NextChunk(rom: seq<byte>, pos: nat, data: seq<byte>, at: nat)
    requires pos <= |rom| && at < |data| && Chunked(rom[pos..], data[at..])
    ensures pos + 2 <= |rom| && pos + 2 + Be16(rom[pos..pos + 2]) <= |rom|
    ensures var next := pos + 2 + Be16(rom[pos..pos + 2]);
            var block := rom[pos + 2..next];
            StoresPart(block, data, at) && Chunked(rom[next..], data[at + DeclaredSize(block)..])
  {
    hide Unpack;
    hide DeclaredSize;
    hide Be16;
    var s, left := rom[pos..], data[at..];
    assert rom[pos..pos + 2] == s[..2];
    var n := Be16(s[..2]);
    var block := rom[pos + 2..pos + 2 + n];
    assert block == Chunk(s);
    var d := DeclaredSize(block);
    assert left[..d] == data[at..at + d] && left[d..] == data[at + d..];
    assert s[2 + n..] == rom[pos + 2 + n..];
  }

  /** Decompresses one chunk and moves on to the next one. */
  method ReadChunk(rom: seq<byte>, pos: nat, ghost data: seq<byte>, ghost at: nat, buf: array<byte>)
    returns (next: nat, n: nat)
    requires pos <= |rom| && at < |data| && Chunked(rom[pos..], data[at..])
    requires buf.Length == CHUNK
    modifies buf
    ensures 1 <= n <= CHUNK && at + n <= |data| && buf[..n] == data[at..at + n]
    ensures next <= |rom| && Chunked(rom[next..], data[at + n..])
  {
    hide *;
    NextChunk(rom, pos, data, at);
    next := pos + 2 + Be16(rom[pos..pos + 2]);
    var block := rom[pos + 2..next];
    ghost var part := PartOf(block, data, at);
    n := DecompExec(block, buf, 0);
    assert buf[..n] == part by { assert buf[..n] == buf[0..n]; }
  }

  /**
   Reads offset..offset+size of the compressed file at rom[start..] into out[base..].
   Without a first chunk the source reads past the size field, hence the non-empty file.
   */
  method RomfsDecompExec(rom: seq<byte>, start: nat, ghost data: seq<byte>, buf: array<byte>,
                         out: array<byte>, base: nat, offset: nat, size: nat) returns (r: nat)
    requires start + 4 <= |rom| && Be32(rom[start..start + 4]) == |data| > 0
    requires Chunked(rom[start + 4..], data)
    requires buf != out && buf.Length == CHUNK
    requires offset + size < 0x1_0000_0000
    requires base + |Window(data, offset, size, |data|)| <= out.Length
    modifies out, buf
    ensures r == |data|
    ensures var w := Window(data, offset, size, |data|);
            && out[base..base + |w|] == w
            && forall i :: 0 <= i < out.Length && !(base <= i < base + |w|) ==> out[i] == old(out[i])
  {
    hide Chunked;
    r := Be32(rom[start..start + 4]);
    var pos: nat, inOffset: nat, op: nat := start + 4, 0, base;
    assert Window(data, offset, size, 0) == [] && data[0..] == data;
    hide Window;
    hide Be16;
    hide Be32;
    while true
      invariant pos <= |rom| && inOffset < |data|
      invariant base <= op <= out.Length && out[base..op] == Window(data, offset, size, inOffset)
      invariant Chunked(rom[pos..], data[inOffset..])
      invariant forall i :: 0 <= i < out.Length && !(base <= i < op) ==> out[i] == old(out[i])
      decreases |data| - inOffset
    {
      var n;
      pos, n := ReadChunk(rom, pos, data, inOffset, buf);
      op := CopyWindow(buf, n, data, inOffset, out, base, op, offset, size);
      inOffset := inOffset + n;
      WindowFits(data, offset, size, inOffset);
      if inOffset >= offset + size { return; }
      if inOffset >= r { return; }
    }
  }

  datatype Entry = Entry(offset: nat, size: nat, flags: byte)

  /** The entry's file holds data, in either of the two storage forms. */
  ghost predicate FileAt(rom: seq<byte>, e: Entry, data: seq<byte>) {
    !Has(e.flags, 0x02) &&
    if Has(e.flags, 0x20) then
      && e.offset + 4 <= |rom| && Be32(rom[e.offset..e.offset + 4]) == |data| > 0
      && Chunked(rom[e.offset + 4..], data)
    else
      e.size == |data| && e.offset + e.size <= |rom| && rom[e.offset..e.offset + e.size] == data
  }

  method GetEntrySize(rom: seq<byte>, e: Entry, ghost data: seq<byte>) returns (r: nat)
    requires Has(e.flags, FLAG_FOLDER) || FileAt(rom, e, data)
    ensures r == if Has(e.flags, FLAG_FOLDER) then 0 else |data|
  {
    if Has(e.flags, FLAG_FOLDER) { return 0; }
    if Has(e.flags, FLAG_COMPRESSED) {
      r := Be32(rom[e.offset..e.offset + 4]);
    } else {
      r := e.size;
    }
  }

  lemma SliceOfSlice(s: seq<byte>, a: nat, n: nat, b: nat, m: nat)
    requires a + n <= |s| && b + m <= n
    ensures s[a..a + n][b..b + m] == s[a + b..a + b + m]
  {
    var t := s[a..a + n];
    forall k | b <= k < b + m ensures t[k] == s[a..][k] {
    }
    assert t[b..b + m] == s[a..][b..b + m];
  }

  /** A raw file is read where it lies in the image, past its end as well; a compressed one is clipped. */
  ghost function Delivered(rom: seq<byte>, e: Entry, data: seq<byte>, offset: nat, size: nat): (d: seq<byte>)
    requires FileAt(rom, e, data)
    requires Has(e.flags, FLAG_COMPRESSED) || e.offset + offset + size <= |rom|
    ensures |d| <= size
  {
    if Has(e.flags, FLAG_COMPRESSED) then Window(data, offset, size, |data|)
    else rom[e.offset + offset..e.offset + offset + size]
  }

  /** Inside the file both storage forms deliver the same slice of its contents. */
  lemma DeliveredInside(rom: seq<byte>, e: Entry, data: seq<byte>, offset: nat, size: nat)
    requires FileAt(rom, e, data) && offset + size <= |data|
    ensures Delivered(rom, e, data, offset, size) == data[offset..offset + size]
  {
    hide Chunked;
    if !Has(e.flags, FLAG_COMPRESSED) { SliceOfSlice(rom, e.offset, e.size, offset, size); }
  }

  /** Reads offset..offset+size of a file, whichever way it is stored. */
  method GetEntryData(rom: seq<byte>, e: Entry, ghost data: seq<byte>, buf: array<byte>,
                      out: array<byte>, base: nat, offset: nat, size: nat)
    requires Has(e.flags, FLAG_FOLDER) || FileAt(rom, e, data)
    requires Has(e.flags, FLAG_FOLDER) || Has(e.flags, FLAG_COMPRESSED) || e.offset + offset + size <= |rom|
    requires buf != out && buf.Length == CHUNK
    requires offset + size < 0x1_0000_0000 && base + size <= out.Length
    modifies out, buf
    ensures Has(e.flags, FLAG_FOLDER) ==> out[..] == old(out[..])
    ensures !Has(e.flags, FLAG_FOLDER) ==>
              var d := Delivered(rom, e, data, offset, size);
              && out[base..base + |d|] == d
              && forall i :: 0 <= i < out.Length && !(base <= i < base + |d|) ==> out[i] == old(out[i])
    ensures !Has(e.flags, FLAG_FOLDER) && offset + size <= |data| ==>
              out[base..base + size] == data[offset..offset + size]
  {
    hide Chunked;
    hide Window;
    hide Unpack;
    hide DeclaredSize;
    hide Be16;
    hide Be32;
    if Has(e.flags, FLAG_FOLDER) { return; }
    if offset + size <= |data| { DeliveredInside(rom, e, data, offset, size); }
    if Has(e.flags, FLAG_COMPRESSED) {
      var _ := RomfsDecompExec(rom, e.offset, data, buf, out, base, offset, size);
    } else {
      Memcpy(out, base, rom[e.offset + offset..e.offset + offset + size]);
    }
  }
}
