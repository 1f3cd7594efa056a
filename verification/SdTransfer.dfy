/**
 File transfer to and from the SD card: size, data and CRC-8 over the remote I/O protocol,
 with the checksum accumulated chunk by chunk.
 */
module SdTransfer {
  import opened Bytes
  import opened Crc8
  import opened Crc8Burst
  import opened RemoteIo

  const UPLOAD: byte := 4
  const CHUNK := 4096
  const FILE_BUFFER := 0x1_0000

  function ToBv(s: Stream): (r: seq<bv8>)
    ensures |r| == |s|
    ensures forall i :: 0 <= i < |s| ==> r[i] == s[i] as bv8
  {
    seq(|s|, i requires 0 <= i < |s| => s[i] as bv8)
  }

  /** The checksum of a file. */
  function Check(data: Stream): Reg { Crc(ZERO, ToBv(data)) }

  /** The device sent this checksum byte. */
  predicate Matches(c: byte, data: Stream) { OfByte(c as bv8) == Check(data) }

  lemma CheckAppend(a: Stream, b: Stream)
    ensures Check(a + b) == Crc(Check(a), ToBv(b))
  {
    hide Crc;
    assert ToBv(a + b) == ToBv(a) + ToBv(b);
    CrcAppend(ZERO, ToBv(a), ToBv(b));
  }

  lemma CheckEmpty()
    ensures Check([]) == OfByte(0)
  {
    assert ToBv([]) == [];
    hide OfByte;
    assert OfByte(0) == ZERO by { OfZero(); }
  }

  lemma OfZero()
    ensures OfByte(0) == ZERO
  {
  }

  /** s starts with a download that checks out: an OK reply with the size, the file, its checksum. */
  ghost predicate Accepted(s: Stream, file: Stream, rest: Stream) {
    exists payload: Stream, c: byte ::
      && 4 <= |payload| <= 0xFFFF
      && s == Frame(OK, payload) + (file + ([c] + rest))
      && Be32(payload[..4]) == |file| && Matches(c, file)
  }

  /** Nothing that checks out starts s. */
  ghost predicate Refused(s: Stream) {
    forall file, rest :: !Accepted(s, file, rest)
  }

  /** The parts of an accepted stream, given its first frame. */
  lemma AcceptedParts(s: Stream, status: byte, payload: Stream, tail: Stream, file: Stream, rest: Stream)
    requires |payload| <= 0xFFFF && s == Frame(status, payload) + tail && Accepted(s, file, rest)
    ensures status == OK && 4 <= |payload| && Be32(payload[..4]) == |file| < |tail|
    ensures tail[..|file|] == file && Matches(tail[|file|], file) && tail[|file| + 1..] == rest
  {
    hide Frame;
    hide Matches;
    var p: Stream, c: byte :|
      && 4 <= |p| <= 0xFFFF && s == Frame(OK, p) + (file + ([c] + rest)) && Be32(p[..4]) == |file| && Matches(c, file);
    FrameUnique(status, payload, tail, OK, p, file + ([c] + rest));
  }

  lemma RefusedWithoutMagic(s: Stream)
    requires !(MAGIC <= s)
    ensures Refused(s)
  {
    hide Frame;
    forall p: Stream, x: Stream | |p| <= 0xFFFF ensures MAGIC <= Frame(OK, p) + x {
      FrameFields(OK, p, x);
    }
  }

  lemma RefusedReply(s: Stream, status: byte, payload: Stream, tail: Stream)
    requires |payload| <= 0xFFFF && s == Frame(status, payload) + tail
    requires status != OK || |payload| < 4
             || (var n := Be32(payload[..4]); |tail| > n && !Matches(tail[n], tail[..n]))
    ensures Refused(s)
  {
    hide Frame;
    hide Matches;
    forall file, rest ensures !Accepted(s, file, rest) {
      if Accepted(s, file, rest) { AcceptedParts(s, status, payload, tail, file, rest); }
    }
  }

  /** A file of the host. Every operation may fail, and then counts it. */
  class HostFile {
    var contents: Stream
    var pos: nat
    var ferror: bool
    ghost var failures: nat

    ghost predicate Valid()
      reads this
    {
      pos <= |contents|
    }

    constructor (contents: Stream)
      ensures Valid() && this.contents == contents && failures == 0
    {
      this.contents, pos, ferror, failures := contents, 0, false, 0;
    }

    /** fopen for writing empties the file. */
    method Create() returns (ok: bool)
      modifies this
      ensures failures == old(failures) + (if ok then 0 else 1)
      ensures ok ==> Valid() && contents == []
    {
      ok := *;
      if ok { contents, pos, ferror := [], 0, false; } else { failures := failures + 1; }
    }

    /** fwrite at the end; some of the data may get there when it fails. */
    method Write(data: Stream) returns (ok: bool)
      modifies this`contents, this`failures
      ensures failures == old(failures) + (if ok then 0 else 1)
      ensures exists k :: 0 <= k <= |data| && contents == old(contents) + data[..k]
      ensures ok ==> contents == old(contents) + data
    {
      ok := *;
      var k: nat :| k <= |data|;
      if ok { k := |data|; }
      contents := contents + data[..k];
      assert data[..|data|] == data;
      if !ok { failures := failures + 1; }
    }

    /** file_size, then fopen for reading. */
    method Open() returns (ok: bool, size: nat)
      modifies this
      ensures failures == old(failures) + (if ok then 0 else 1) && contents == old(contents)
      ensures ok ==> Valid() && pos == 0 && !ferror && size == |contents|
    {
      ok, size := *, |contents|;
      if ok { pos, ferror := 0, false; } else { failures := failures + 1; }
    }

    /** fread: some of the next bytes, none at the end of the file or on an error. */
    method Read(max: nat) returns (data: Stream)
      requires Valid() && max > 0
      modifies this`pos, this`ferror, this`failures
      ensures Valid() && |data| <= max && old(pos) + |data| == pos && data == contents[old(pos)..pos]
      ensures data == [] ==> pos == |contents| || ferror
      ensures old(ferror) ==> ferror
      ensures if ferror == old(ferror) then failures == old(failures) else failures == old(failures) + 1
    {
      var n: nat :| n <= max && pos + n <= |contents|;
      var error := *;
      if !ferror && (error || (n == 0 && pos < |contents|)) {
        ferror := true;
        failures := failures + 1;
      }
      data := contents[pos..pos + n];
      pos := pos + n;
    }
  }

  /** One chunk: read, checksummed and written to the host's file. */
  method ReceiveChunk(dev: Device, local: HostFile, buffer: array<byte>, chunk: nat, checksum: bv8)
    returns (ok: bool, checksum': bv8)
    requires 0 < chunk <= buffer.Length && OfByte(checksum) == Check(local.contents)
    modifies dev, buffer, local
    ensures dev.sent == old(dev.sent)
    ensures ok ==> && |local.contents| == |old(local.contents)| + chunk
                   && OfByte(checksum') == Check(local.contents)
                   && old(local.contents) + old(dev.incoming) == local.contents + dev.incoming
    ensures ok ==> local.failures == old(local.failures)
    ensures !ok ==> local.failures > old(local.failures) || Trouble(dev, 5000)
    ensures local.failures >= old(local.failures)
    ensures Onward(dev)
  {
    hide OfByte;
    hide Check;
    hide Crc;
    hide ToBv;
    ghost var had, sofar := dev.incoming, local.contents;
    ok, checksum' := false, checksum;
    var got := ReadExact(dev, buffer, chunk, IDLE_CYCLES);
    if !got { return; }
    var data := buffer[..chunk];
    CheckAppend(sofar, data);
    checksum' := CrcUpdate(checksum, ToBv(data));
    ok := local.Write(data);
    assert had == data + dev.incoming;
    assert sofar + (data + dev.incoming) == sofar + data + dev.incoming;
  }

  /** The data loop of a download: n bytes in chunks, into an empty file. */
  method ReceiveFile(dev: Device, local: HostFile, n: nat) returns (ok: bool, checksum: bv8)
    requires local.contents == []
    modifies dev, local
    ensures dev.sent == old(dev.sent)
    ensures ok ==> |local.contents| == n && old(dev.incoming) == local.contents + dev.incoming
                   && OfByte(checksum) == Check(local.contents) && local.failures == old(local.failures)
    ensures !ok ==> local.failures > old(local.failures) || Trouble(dev, 5000)
    ensures Onward(dev)
  {
    hide OfByte;
    var buffer := new byte[CHUNK];
    ok, checksum := true, 0;
    CheckEmpty();
    hide Check;
    var received := 0;
    while received < n
      invariant received == |local.contents| <= n && local.failures == old(local.failures)
      invariant old(dev.incoming) == local.contents + dev.incoming
      invariant OfByte(checksum) == Check(local.contents) && ok
      invariant Onward(dev) && dev.sent == old(dev.sent)
    {
      var chunk := if n - received > CHUNK then CHUNK else n - received;
      ok, checksum := ReceiveChunk(dev, local, buffer, chunk, checksum);
      if !ok { return; }
      received := received + chunk;
    }
  }

  /**
   DoSdDownload. Unless an operation on the host's file fails or the device gives trouble,
   it succeeds exactly on streams that check out.
   */
  method DoSdDownload(dev: Device, path: Stream, local: HostFile) returns (r: int)
    modifies dev, local
    ensures r in {0, 1}
    ensures r == 1 ==> Accepted(old(dev.incoming), local.contents, dev.incoming)
                       && local.failures == old(local.failures)
    ensures if |path| > 0xFFFF then r == 0 && dev.sent == old(dev.sent)
            else old(dev.sent) <= dev.sent <= old(dev.sent) + Frame(8, path)
    ensures r == 1 ==> |path| <= 0xFFFF && dev.sent == old(dev.sent) + Frame(8, path)
    ensures r == 0 && |path| <= 0xFFFF ==>
              Refused(old(dev.incoming)) || local.failures > old(local.failures) || Trouble(dev, 5000)
  {
    hide OfByte;
    hide Check;
    hide Refused;
    hide Frame;
    var ok := local.Create();
    if !ok { return 0; }
    ok := SendCommand(dev, DOWNLOAD, path);
    if !ok { return 0; }
    ghost var stream := dev.incoming;
    var rc, reply := TryReadReply(dev, IDLE_CYCLES);
    if rc != 1 {
      if !(MAGIC <= stream) { RefusedWithoutMagic(stream); }
      return 0;
    }
    ghost var tail := dev.incoming;
    if reply.status != OK || |reply.payload| < 4 {
      RefusedReply(stream, reply.status, reply.payload, tail);
      return 0;
    }
    var size := Be32(reply.payload[..4]);
    var checksum;
    ok, checksum := ReceiveFile(dev, local, size);
    if !ok { return 0; }
    ghost var after, file := dev.incoming, local.contents;
    var last := new byte[1];
    ok := ReadExact(dev, last, 1, IDLE_CYCLES);
    if !ok { return 0; }
    var c := last[0];
    assert last[..1] == [c];
    assert after == [c] + dev.incoming;
    assert tail[..size] == file && tail[size] == c;
    if c as bv8 != checksum {
      OfByteInjective(c as bv8, checksum);
      RefusedReply(stream, reply.status, reply.payload, tail);
      return 0;
    }
    assert Matches(c, file);
    return 1;
  }

  /** An undamaged transfer arrives whole, whatever its fragments, unless the host or the device fails. */
  method DownloadIntact(dev: Device, path: Stream, local: HostFile, ghost data: Stream, ghost c: byte, ghost rest: Stream)
    returns (r: int)
    requires |path| <= 0xFFFF && |data| < 0x1_0000_0000 && Matches(c, data)
    requires dev.incoming == Frame(OK, Be32Bytes(|data|)) + (data + ([c] + rest))
    modifies dev, local
    ensures r == 1 ==> local.contents == data && dev.incoming == rest && dev.sent == old(dev.sent) + Frame(8, path)
    ensures local.failures == old(local.failures) && !Trouble(dev, 5000) ==> r == 1
  {
    hide Matches;
    hide Frame;
    ghost var stream, payload := dev.incoming, Be32Bytes(|data|);
    Be32Digits(|data|);
    assert payload[..4] == payload;
    assert Accepted(stream, data, rest);
    r := DoSdDownload(dev, path, local);
    if r == 1 {
      AcceptedParts(stream, OK, payload, data + ([c] + rest), local.contents, dev.incoming);
    }
  }

  /** Some bits differ, and all that do are among eight consecutive ones from bit p on. */
  ghost predicate BurstError(data: Stream, damaged: Stream, p: nat)
    requires |data| == |damaged|
  {
    ToBv(data) != ToBv(damaged) && WithinBurst(ToBv(data), ToBv(damaged), p)
  }

  /** A burst of at most eight damaged bits in the file never passes. */
  method DownloadDamaged(dev: Device, path: Stream, local: HostFile, ghost data: Stream, ghost damaged: Stream,
                         ghost p: nat, ghost c: byte, ghost rest: Stream)
    returns (r: int)
    requires |damaged| == |data| < 0x1_0000_0000 && Matches(c, data)
    requires BurstError(data, damaged, p)
    requires dev.incoming == Frame(OK, Be32Bytes(|data|)) + (damaged + ([c] + rest))
    modifies dev, local
    ensures r == 0
  {
    hide Frame;
    hide OfByte;
    hide Crc;
    hide WithinBurst;
    ghost var stream, payload := dev.incoming, Be32Bytes(|data|);
    Be32Digits(|data|);
    assert payload[..4] == payload;
    r := DoSdDownload(dev, path, local);
    if r == 1 {
      ghost var tail := damaged + ([c] + rest);
      AcceptedParts(stream, OK, payload, tail, local.contents, dev.incoming);
      assert local.contents == damaged && tail[|data|] == c;
      BurstChangesCrc(ToBv(data), ToBv(damaged), p);
      assert false;
    }
  }

  /**
   StreamAndCrc: the file goes out in whatever pieces it is read; the checksum is that of
   the whole file, independent of the pieces.
   */
  method StreamAndCrc(dev: Device, local: HostFile) returns (ok: bool, checksum: bv8)
    requires local.Valid() && local.pos == 0 && !local.ferror
    modifies dev, local`pos, local`ferror, local`failures
    ensures dev.incoming == old(dev.incoming)
    ensures old(dev.sent) <= dev.sent <= old(dev.sent) + local.contents
    ensures ok ==> dev.sent == old(dev.sent) + local.contents && OfByte(checksum) == Check(local.contents)
                   && local.failures == old(local.failures)
    ensures !ok ==> local.failures > old(local.failures) || dev.failures > old(dev.failures) || dev.interrupted
    ensures Onward(dev)
  {
    hide OfByte;
    hide Crc;
    hide ToBv;
    ok, checksum := false, 0;
    CheckEmpty();
    hide Check;
    ghost var file := local.contents;
    assert file[..0] == [] && old(dev.sent) + [] == dev.sent;
    while true
      invariant local.Valid() && local.contents == file && dev.incoming == old(dev.incoming)
      invariant dev.sent == old(dev.sent) + file[..local.pos] && OfByte(checksum) == Check(file[..local.pos])
      invariant local.failures == old(local.failures) + (if local.ferror then 1 else 0)
      invariant Onward(dev)
      decreases |file| - local.pos
    {
      ghost var at := local.pos;
      var piece := local.Read(FILE_BUFFER);
      if piece == [] { break; }
      assert file[..at] + piece == file[..local.pos];
      assert old(dev.sent) + file[..at] + piece == old(dev.sent) + file[..local.pos];
      assert old(dev.sent) + file[..local.pos] <= old(dev.sent) + file;
      var w := WriteAll(dev, piece);
      if !w { return; }
      CheckAppend(file[..at], piece);
      checksum := CrcUpdate(checksum, ToBv(piece));
    }
    if local.ferror { return; }
    assert file[..local.pos] == file;
    ok := true;
  }

  /** What a device receives in an upload: the command, the size, the file, its checksum. */
  function UploadStream(path: Stream, file: Stream, c: byte): Stream
    requires |path| <= 0xFFFF
  {
    Frame(4, path) + Be32Bytes(|file|) + file + [c]
  }

  /** An upload has one reading: path, file, checksum byte and what follows are determined by the bytes. */
  lemma UploadDecodes(p: Stream, f: Stream, c: byte, r: Stream, p': Stream, f': Stream, c': byte, r': Stream)
    requires |p| <= 0xFFFF && |p'| <= 0xFFFF && |f| < 0x1_0000_0000 && |f'| < 0x1_0000_0000
    requires UploadStream(p, f, c) + r == UploadStream(p', f', c') + r'
    ensures p == p' && f == f' && c == c' && r == r'
  {
    hide Frame;
    var s, s' := Be32Bytes(|f|), Be32Bytes(|f'|);
    var t, t' := s + (f + ([c] + r)), s' + (f' + ([c'] + r'));
    assert UploadStream(p, f, c) + r == Frame(UPLOAD, p) + t;
    assert UploadStream(p', f', c') + r' == Frame(UPLOAD, p') + t';
    FrameUnique(UPLOAD, p, t, UPLOAD, p', t');
    assert s == t[..4] == t'[..4] == s';
    Be32Digits(|f|);
    Be32Digits(|f'|);
    var u, u' := f + ([c] + r), f' + ([c'] + r');
    assert u == t[4..] == t'[4..] == u';
    assert f == u[..|f|] == f' && u[|f|] == c == c' && r == u[|f| + 1..] == r';
  }

  /** The device accepts an upload: an OK reply, and later a zero byte. */
  ghost predicate Acknowledged(s: Stream, rest: Stream) {
    exists payload: Stream :: |payload| <= 0xFFFF && s == Frame(OK, payload) + ([0] + rest)
  }

  ghost predicate NotAcknowledged(s: Stream) {
    forall rest: Stream :: !Acknowledged(s, rest)
  }

  lemma NoReplyNoAcknowledgement(s: Stream)
    requires !(MAGIC <= s)
    ensures NotAcknowledged(s)
  {
    hide Frame;
    forall p: Stream, x: Stream | |p| <= 0xFFFF ensures MAGIC <= Frame(OK, p) + x {
      FrameFields(OK, p, x);
    }
  }

  lemma OtherReplyNoAcknowledgement(s: Stream, status: byte, payload: Stream, tail: Stream)
    requires |payload| <= 0xFFFF && s == Frame(status, payload) + tail
    requires status != OK || (tail != [] && tail[0] != 0)
    ensures NotAcknowledged(s)
  {
    hide Frame;
    forall rest: Stream ensures !Acknowledged(s, rest) {
      if Acknowledged(s, rest) {
        var p: Stream :| |p| <= 0xFFFF && s == Frame(OK, p) + ([0] + rest);
        FrameUnique(status, payload, tail, OK, p, [0] + rest);
      }
    }
  }

  /** What follows the reply: the size, the file and its checksum. */
  method SendBody(dev: Device, local: HostFile, size: nat, ghost sent: Stream, ghost path: Stream) returns (ok: bool, ghost c: byte)
    requires local.Valid() && local.pos == 0 && !local.ferror && |path| <= 0xFFFF && size == |local.contents|
    requires dev.sent == sent + Frame(UPLOAD, path)
    modifies dev, local`pos, local`ferror, local`failures
    ensures dev.incoming == old(dev.incoming)
    ensures old(dev.sent) <= dev.sent <= sent + UploadStream(path, local.contents, c)
    ensures ok ==> dev.sent == sent + UploadStream(path, local.contents, c) && Matches(c, local.contents)
                   && local.failures == old(local.failures)
    ensures !ok ==> local.failures > old(local.failures) || dev.failures > old(dev.failures) || dev.interrupted
    ensures Onward(dev)
  {
    hide OfByte;
    hide Check;
    hide Frame;
    c := 0;
    UploadGrows(sent, path, local.contents, c);
    ok := WriteAll(dev, Be32Bytes(size));
    if !ok { return; }
    var checksum;
    ok, checksum := StreamAndCrc(dev, local);
    if !ok { return; }
    var last := checksum as int;
    UploadSent(sent, path, local.contents, last);
    c := last;
    assert c as bv8 == checksum;
    ok := WriteAll(dev, [last]);
  }

  /**
   DoSdUpload, for a target path on the card. Success means that all of the upload was sent
   and the device acknowledged it; it fails only on a path or file that is too long, when
   the host or the device fails, or without the acknowledgement.
   */
  method DoSdUpload(dev: Device, local: HostFile, path: Stream) returns (r: int, ghost c: byte)
    modifies dev, local
    ensures r in {0, 1} && local.contents == old(local.contents)
    ensures r == 1 ==> && |path| <= 0xFFFF && |local.contents| <= 0xFFFF_FFFF && Matches(c, local.contents)
                       && dev.sent == old(dev.sent) + UploadStream(path, local.contents, c)
                       && Acknowledged(old(dev.incoming), dev.incoming)
                       && local.failures == old(local.failures)
    ensures if |path| > 0xFFFF || |local.contents| > 0xFFFF_FFFF then dev.sent == old(dev.sent)
            else old(dev.sent) <= dev.sent <= old(dev.sent) + UploadStream(path, local.contents, c)
    ensures r == 0 ==> || |path| > 0xFFFF || |local.contents| > 0xFFFF_FFFF
                       || local.failures > old(local.failures) || Trouble(dev, 5000)
                       || NotAcknowledged(old(dev.incoming))
  {
    hide OfByte;
    hide Check;
    hide Frame;
    hide NotAcknowledged;
    c := 0;
    ghost var stream, file := dev.incoming, local.contents;
    var ok, size := local.Open();
    if !ok || size > 0xFFFF_FFFF { return 0, c; }
    if |path| <= 0xFFFF { UploadGrows(old(dev.sent), path, file, c); }
    ok := SendCommand(dev, UPLOAD, path);
    if !ok { return 0, c; }
    var rc, reply := TryReadReply(dev, IDLE_CYCLES);
    if rc != 1 {
      if !(MAGIC <= stream) { NoReplyNoAcknowledgement(stream); }
      return 0, c;
    }
    ghost var tail := dev.incoming;
    if reply.status != OK {
      OtherReplyNoAcknowledgement(stream, reply.status, reply.payload, tail);
      return 0, c;
    }
    ok, c := SendBody(dev, local, size, old(dev.sent), path);
    if !ok { return 0, c; }
    var result := new byte[1];
    ok := ReadExact(dev, result, 1, IDLE_CYCLES);
    if !ok { return 0, c; }
    assert result[..1] == [result[0]];
    assert tail == [result[0]] + dev.incoming;
    if result[0] != 0 {
      OtherReplyNoAcknowledgement(stream, OK, reply.payload, tail);
      return 0, c;
    }
    r := 1;
  }

  lemma UploadSent(sent: Stream, path: Stream, file: Stream, c: byte)
    requires |path| <= 0xFFFF
    ensures sent + Frame(UPLOAD, path) + Be32Bytes(|file|) + file + [c] == sent + UploadStream(path, file, c)
  {
    hide Frame;
  }

  lemma UploadGrows(sent: Stream, path: Stream, file: Stream, c: byte)
    requires |path| <= 0xFFFF
    ensures sent + Frame(UPLOAD, path) <= sent + Frame(UPLOAD, path) + Be32Bytes(|file|)
            <= sent + Frame(UPLOAD, path) + Be32Bytes(|file|) + file <= sent + UploadStream(path, file, c)
  {
    hide Frame;
    UploadSent(sent, path, file, c);
  }
}
