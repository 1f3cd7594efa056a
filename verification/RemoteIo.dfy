/**
 The remote I/O protocol of the transfer tool over a device that accepts and delivers bytes
 in arbitrary fragments: reading and writing exact counts, command and reply frames.
 */
module RemoteIo {
  import opened Bytes

  type Stream = seq<byte>

  const MAGIC: Stream := [0x53, 0x52, 0x4C, 0x31]
  const LIST: byte := 1
  const RENAME: byte := 7
  const DOWNLOAD: byte := 8
  const OK: byte := 0
  const NEWLINE: byte := 0x0A
  const IDLE_CYCLES := 5000

  /**
   The USB device. `incoming` is what it will still deliver, `sent` what it has accepted.
   Every call may move fewer bytes than asked for, none, or fail.
   */
  class Device {
    var incoming: Stream
    var sent: Stream
    var interrupted: bool
    var patience: nat       // idle writes until the user interrupts
    ghost var failures: nat // calls so far that reported an error
    ghost var idle: nat     // reads in a row that delivered nothing
    ghost var quiet: nat    // reads so far that delivered nothing

    constructor ()
    {
      incoming, sent, interrupted, patience, failures, idle, quiet := [], [], false, 0, 0, 0, 0;
    }

    /** ftdi_write_data: the number of bytes accepted, negative on error. */
    method WriteData(data: Stream) returns (rc: int)
      requires data != []
      modifies this
      ensures rc <= |data| && incoming == old(incoming) && idle == old(idle) && quiet == old(quiet)
      ensures sent == old(sent) + (if rc > 0 then data[..rc] else [])
      ensures failures == old(failures) + (if rc < 0 then 1 else 0)
      ensures rc == 0 ==> patience < old(patience) || interrupted
      ensures rc != 0 ==> patience == old(patience)
      ensures old(interrupted) ==> interrupted
    {
      rc :| -1 <= rc <= |data|;
      if rc < 0 {
        failures := failures + 1;
      } else if rc == 0 {
        if patience == 0 { interrupted := true; } else { patience := patience - 1; }
      } else {
        sent := sent + data[..rc];
      }
    }

    /** ftdi_read_data: up to `size` bytes into buf[at..], negative on error. */
    method ReadData(buf: array<byte>, at: nat, size: nat) returns (rc: int)
      requires size > 0 && at + size <= buf.Length
      modifies this, buf
      ensures rc <= size && rc <= |old(incoming)| && sent == old(sent)
      ensures rc > 0 ==> buf[at..at + rc] == old(incoming)[..rc] && incoming == old(incoming)[rc..]
      ensures rc <= 0 ==> incoming == old(incoming)
      ensures forall i :: 0 <= i < buf.Length && !(at <= i < at + rc) ==> buf[i] == old(buf[i])
      ensures failures == old(failures) + (if rc < 0 then 1 else 0)
      ensures quiet == old(quiet) + (if rc == 0 then 1 else 0)
      ensures idle == (if rc == 0 then old(idle) + 1 else if rc > 0 then 0 else old(idle))
      ensures old(interrupted) ==> interrupted
    {
      rc :| -1 <= rc <= size && rc <= |incoming|;
      if * { interrupted := true; }
      if rc < 0 {
        failures := failures + 1;
      } else if rc == 0 {
        idle, quiet := idle + 1, quiet + 1;
      } else {
        for i := 0 to rc
          invariant sent == old(sent) && incoming == old(incoming) && failures == old(failures) && quiet == old(quiet)
          invariant buf[at..at + i] == incoming[..i]
          invariant forall k :: 0 <= k < buf.Length && !(at <= k < at + i) ==> buf[k] == old(buf[k])
          invariant old(interrupted) ==> interrupted
        {
          buf[at + i] := incoming[i];
        }
        incoming := incoming[rc..];
        idle := 0;
      }
    }
  }

  /**
   Some reason to give up that is not in the bytes: since the call began a call reported an
   error, or the device delivered nothing to so many reads in a row; or the user interrupted.
   */
  twostate predicate Trouble(dev: Device, cycles: nat)
    reads dev
  {
    || dev.failures > old(dev.failures) || dev.interrupted
    || (dev.idle >= cycles && dev.quiet >= old(dev.quiet) + cycles)
  }

  /** The counters of a device only grow, and an interrupt stays. */
  twostate predicate Onward(dev: Device)
    reads dev
  {
    dev.failures >= old(dev.failures) && dev.quiet >= old(dev.quiet) && (old(dev.interrupted) ==> dev.interrupted)
  }

  /** WriteAllToDevice. */
  method WriteAll(dev: Device, data: Stream) returns (ok: bool)
    modifies dev
    ensures dev.incoming == old(dev.incoming) && dev.idle == old(dev.idle) && dev.quiet == old(dev.quiet)
    ensures ok ==> dev.sent == old(dev.sent) + data
    ensures !ok ==> dev.failures > old(dev.failures) || dev.interrupted
    ensures old(dev.sent) <= dev.sent <= old(dev.sent) + data
    ensures Onward(dev)
  {
    var written := 0;
    assert old(dev.sent) + data[..0] == dev.sent;
    while written < |data| && !dev.interrupted
      invariant 0 <= written <= |data| && dev.sent == old(dev.sent) + data[..written]
      invariant dev.incoming == old(dev.incoming) && dev.idle == old(dev.idle) && dev.quiet == old(dev.quiet)
      invariant Onward(dev)
      decreases |data| - written, dev.patience
    {
      var rc := dev.WriteData(data[written..]);
      if rc < 0 { return false; }
      if rc > 0 {
        assert data[..written] + data[written..][..rc] == data[..written + rc];
        written := written + rc;
      } else if dev.interrupted {
        break; // the loop condition, checked early
      }
    }
    assert written == |data| ==> data[..written] == data;
    ok := written == |data|;
  }

  /** ReadExactFromDevice: `size` bytes into buf, unless the device fails or stays idle for `cycles` reads. */
  method ReadExact(dev: Device, buf: array<byte>, size: nat, cycles: nat) returns (ok: bool)
    requires size <= buf.Length && cycles > 0
    modifies dev, buf
    ensures dev.sent == old(dev.sent)
    ensures exists k :: 0 <= k <= size && k <= |old(dev.incoming)| && dev.incoming == old(dev.incoming)[k..]
    ensures ok ==> |old(dev.incoming)| >= size && buf[..size] == old(dev.incoming)[..size]
                   && dev.incoming == old(dev.incoming)[size..]
    ensures !ok ==> Trouble(dev, cycles)
    ensures Onward(dev)
  {
    var read, idleCycles := 0, 0;
    assert old(dev.incoming)[0..] == dev.incoming;
    while read < size && !dev.interrupted
      invariant 0 <= read <= size && read <= |old(dev.incoming)|
      invariant dev.incoming == old(dev.incoming)[read..] && buf[..read] == old(dev.incoming)[..read]
      invariant idleCycles < cycles && idleCycles <= dev.idle && old(dev.quiet) + idleCycles <= dev.quiet
      invariant dev.sent == old(dev.sent)
      invariant Onward(dev)
      decreases size - read, cycles - idleCycles
    {
      ghost var had, got := dev.incoming, buf[..read];
      var rc := dev.ReadData(buf, read, size - read);
      if rc < 0 { return false; }
      if rc == 0 {
        idleCycles := idleCycles + 1;
        if idleCycles >= cycles { return false; }
      } else {
        idleCycles := 0;
        assert had[rc..] == old(dev.incoming)[read + rc..];
        assert buf[..read + rc] == buf[..read] + buf[read..read + rc];
        assert buf[..read] == got;
        read := read + rc;
      }
    }
    ok := read == size;
  }

  /** A 16-bit length, most significant byte first. */
  function Len16(n: nat): (r: Stream)
    requires n <= 0xFFFF
    ensures |r| == 2 && r[0] as int * 256 + r[1] as int == n
  {
    [n / 256, n % 256]
  }

  /** A command or a reply: the magic, the command or status, the length, the payload. */
  function Frame(kind: byte, payload: Stream): (r: Stream)
    requires |payload| <= 0xFFFF
    ensures |r| == 7 + |payload|
  {
    MAGIC + [kind] + Len16(|payload|) + payload
  }

  /** A frame, byte by byte. */
  lemma FrameLayout(kind: byte, payload: Stream)
    requires |payload| <= 0xFFFF
    ensures Frame(kind, payload) ==
            [0x53, 0x52, 0x4C, 0x31, kind, |payload| / 256, |payload| % 256] + payload
  {
  }

  /** The fields of a frame, wherever it starts. */
  lemma FrameFields(kind: byte, payload: Stream, rest: Stream)
    requires |payload| <= 0xFFFF
    ensures var s := Frame(kind, payload) + rest;
            && s[..4] == MAGIC && s[4] == kind && s[5] as int * 256 + s[6] as int == |payload|
            && s[7..7 + |payload|] == payload && s[7 + |payload|..] == rest
  {
    var l := Len16(|payload|);
    var s := Frame(kind, payload) + rest;
    assert s[5] == l[0] && s[6] == l[1];
  }

  /** A stream starts with at most one frame. */
  lemma FrameUnique(k: byte, p: Stream, r: Stream, k': byte, p': Stream, r': Stream)
    requires |p| <= 0xFFFF && |p'| <= 0xFFFF
    requires Frame(k, p) + r == Frame(k', p') + r'
    ensures k == k' && p == p' && r == r'
  {
    hide Frame;
    FrameFields(k, p, r);
    FrameFields(k', p', r');
  }

  /** A header with the magic and that many payload bytes behind it is a frame. */
  lemma FrameFromFields(s: Stream)
    requires |s| >= 7 && s[..4] == MAGIC && |s| == 7 + s[5] as int * 256 + s[6] as int
    ensures s == Frame(s[4], s[7..])
  {
    var n := s[5] as int * 256 + s[6] as int;
    var l := Len16(n);
    assert l[0] == s[5] && l[1] == s[6];
    assert s == s[..4] + [s[4]] + [s[5], s[6]] + s[7..];
  }

  /** SendRemoteIoCommand. */
  method SendCommand(dev: Device, command: byte, argument: Stream) returns (ok: bool)
    modifies dev
    ensures dev.incoming == old(dev.incoming) && dev.idle == old(dev.idle) && dev.quiet == old(dev.quiet)
    ensures |argument| > 0xFFFF ==> !ok && dev.sent == old(dev.sent)
    ensures ok ==> |argument| <= 0xFFFF && dev.sent == old(dev.sent) + Frame(command, argument)
    ensures |argument| <= 0xFFFF ==> old(dev.sent) <= dev.sent <= old(dev.sent) + Frame(command, argument)
    ensures !ok && |argument| <= 0xFFFF ==> dev.failures > old(dev.failures) || dev.interrupted
    ensures Onward(dev)
  {
    if |argument| > 0xFFFF { return false; }
    var header := MAGIC + [command] + Len16(|argument|);
    Regroup(old(dev.sent), header, argument);
    ok := WriteAll(dev, header);
    if !ok { return; }
    if |argument| > 0 {
      ok := WriteAll(dev, argument);
      if !ok { return; }
    }
    assert old(dev.sent) + header + argument == old(dev.sent) + (header + argument);
    assert argument == [] ==> old(dev.sent) + header == old(dev.sent) + header + argument;
  }

  /** The rename payload: both paths with a null in between. */
  function RenamePayload(oldPath: Stream, newPath: Stream): Stream { oldPath + [0] + newPath }

  function FirstNull(s: Stream): (i: nat)
    ensures i <= |s| && 0 !in s[..i] && (i < |s| ==> s[i] == 0)
  {
    if s == [] || s[0] == 0 then 0
    else
      var i := FirstNull(s[1..]);
      assert s[..i + 1] == [s[0]] + s[1..][..i];
      i + 1
  }

  /** Cutting at the first null gives back both paths: the payload has one reading. */
  lemma RenameDecodes(oldPath: Stream, newPath: Stream)
    requires 0 !in oldPath
    ensures var p := RenamePayload(oldPath, newPath); var i := FirstNull(p);
            i == |oldPath| && p[..i] == oldPath && p[i + 1..] == newPath
  {
    var p := RenamePayload(oldPath, newPath);
    var i := FirstNull(p);
    assert p[|oldPath|] == 0;
    assert p[..|oldPath|] == oldPath;
  }

  /** SendRemoteIoRenameCommand: the old path goes out with its terminating null. */
  method SendRename(dev: Device, oldPath: Stream, newPath: Stream) returns (ok: bool)
    modifies dev
    ensures dev.incoming == old(dev.incoming)
    ensures |oldPath| + 1 + |newPath| > 0xFFFF ==> !ok && dev.sent == old(dev.sent)
    ensures ok ==> |oldPath| + 1 + |newPath| <= 0xFFFF
                   && dev.sent == old(dev.sent) + Frame(7, oldPath + [0] + newPath)
    ensures |oldPath| + 1 + |newPath| <= 0xFFFF ==>
              old(dev.sent) <= dev.sent <= old(dev.sent) + Frame(7, oldPath + [0] + newPath)
    ensures !ok && |oldPath| + 1 + |newPath| <= 0xFFFF ==> dev.failures > old(dev.failures) || dev.interrupted
  {
    var n := |oldPath| + 1 + |newPath|;
    if n > 0xFFFF { return false; }
    var header := MAGIC + [RENAME] + Len16(n);
    Regroup(old(dev.sent), header, oldPath + [0] + newPath);
    Regroup(old(dev.sent) + header, oldPath + [0], newPath);
    ok := WriteAll(dev, header);
    if !ok { return; }
    ok := WriteAll(dev, oldPath + [0]);
    if !ok { return; }
    if |newPath| > 0 {
      ok := WriteAll(dev, newPath);
      if !ok { return; }
    }
    assert dev.sent == old(dev.sent) + (header + (oldPath + [0] + newPath));
  }

  datatype Reply = Reply(status: byte, payload: Stream)

  /** TryReadRemoteIoReply: 1 with a reply, 0 when no header arrived, -1 on a bad header or lost payload. */
  method TryReadReply(dev: Device, cycles: nat) returns (rc: int, reply: Reply)
    requires cycles > 0
    modifies dev
    ensures rc in {1, 0, -1} && dev.sent == old(dev.sent)
    ensures rc == 1 ==> |reply.payload| <= 0xFFFF
                        && old(dev.incoming) == Frame(reply.status, reply.payload) + dev.incoming
    ensures rc == 0 ==> Trouble(dev, cycles)
    ensures rc == -1 ==> Trouble(dev, 5000) || (!(MAGIC <= old(dev.incoming)) && |old(dev.incoming)| >= 7)
    ensures Onward(dev)
  {
    hide Frame;
    ghost var stream := dev.incoming;
    reply := Reply(1, []);
    var header := new byte[7];
    var ok := ReadExact(dev, header, 7, cycles);
    if !ok { return 0, reply; }
    assert header[..7] == header[..];
    if header[..4] != MAGIC {
      assert header[..4] == stream[..4];
      return -1, reply;
    }
    var n := header[5] as int * 256 + header[6] as int;
    reply := Reply(header[4], []);
    ghost var h := header[..7];
    var payload := new byte[n];
    if n > 0 {
      ok := ReadExact(dev, payload, n, IDLE_CYCLES);
      if !ok { return -1, reply; }
    }
    reply := Reply(header[4], payload[..]);
    assert payload[..n] == payload[..];
    ghost var whole := stream[..7 + n];
    assert stream[7..][..n] == stream[7..7 + n] && stream[7..][n..] == stream[7 + n..];
    assert whole[7..] == payload[..];
    assert whole[..4] == h[..4] && whole[4] == h[4] && whole[5] == h[5] && whole[6] == h[6];
    FrameFromFields(whole);
    assert stream == whole + stream[7 + n..];
    rc := 1;
  }

  /** A payload with a newline at its end, added when missing. */
  function Completed(p: Stream): (r: Stream)
    requires p != []
    ensures p <= r && r[|r| - 1] == 0x0A && (if p[|p| - 1] == 0x0A then r == p else |r| == |p| + 1)
  {
    if p[|p| - 1] == NEWLINE then p else p + [NEWLINE]
  }

  /** The listing that the payloads of a reply make up. */
  function Listing(payloads: seq<Stream>): Stream {
    if payloads == [] then []
    else Listing(payloads[..|payloads| - 1])
         + (var p := payloads[|payloads| - 1]; if p == [] then [] else Completed(p))
  }

  /** Replies with status OK, one after the other. */
  function OkFrames(payloads: seq<Stream>): Stream
    requires forall p :: p in payloads ==> |p| <= 0xFFFF
  {
    if payloads == [] then [] else Frame(OK, payloads[0]) + OkFrames(payloads[1..])
  }

  lemma {:induction false} OkFramesSnoc(payloads: seq<Stream>, p: Stream)
    requires (forall q :: q in payloads ==> |q| <= 0xFFFF) && |p| <= 0xFFFF
    ensures OkFrames(payloads + [p]) == OkFrames(payloads) + Frame(OK, p)
    decreases |payloads|
  {
    hide Frame;
    if payloads == [] {
      assert [p][1..] == [];
      assert payloads + [p] == [p];
    } else {
      assert (payloads + [p])[1..] == payloads[1..] + [p];
      OkFramesSnoc(payloads[1..], p);
    }
  }

  lemma ListingNil(before: Stream)
    ensures before + Listing([]) == before
  {
  }

  lemma ListingSnoc(payloads: seq<Stream>, p: Stream)
    ensures Listing(payloads + [p]) == Listing(payloads) + (if p == [] then [] else Completed(p))
  {
    assert (payloads + [p])[..|payloads|] == payloads;
  }

  /** What a listing reads: non-empty payloads, ended by an empty one or by silence. */
  ghost predicate WholeListing(payloads: seq<Stream>) {
    && payloads != [] && (forall p :: p in payloads ==> |p| <= 0xFFFF)
    && (forall i :: 0 <= i < |payloads| - 1 ==> payloads[i] != [])
  }

  /** No reply with status OK starts here. */
  ghost predicate NoOkFrame(s: Stream) {
    forall p, rest :: |p| <= 0xFFFF ==> s != Frame(OK, p) + rest
  }

  lemma BadHeaderIsNoOkFrame(s: Stream)
    requires !(MAGIC <= s)
    ensures NoOkFrame(s)
  {
    forall p: Stream, rest: Stream | |p| <= 0xFFFF ensures s != Frame(OK, p) + rest {
      FrameFields(OK, p, rest);
    }
  }

  lemma OtherStatusIsNoOkFrame(status: byte, q: Stream, left: Stream)
    requires |q| <= 0xFFFF && status != OK
    ensures NoOkFrame(Frame(status, q) + left)
  {
    hide Frame;
    forall p: Stream, rest: Stream | |p| <= 0xFFFF ensures Frame(status, q) + left != Frame(OK, p) + rest {
      if Frame(status, q) + left == Frame(OK, p) + rest { FrameUnique(status, q, left, OK, p, rest); }
    }
  }

  /**
   DoListStr. On success the listing is made of the payloads of the replies that were read,
   and these end with the empty one unless the header of a further reply did not arrive: a
   silence inside that header also ends the listing, and the bytes read so far are lost. It
   fails on other trouble, or where a header arrives that is not one of a reply of status OK.
   */
  method DoListStr(dev: Device, path: Stream, before: Stream)
    returns (r: int, listing: Stream, ghost got: seq<Stream>, ghost tail: Stream)
    modifies dev
    ensures r in {0, 1} && (forall p :: p in got ==> |p| <= 0xFFFF)
    ensures if |path| > 0xFFFF then r == 0 && dev.sent == old(dev.sent)
            else old(dev.sent) <= dev.sent <= old(dev.sent) + Frame(1, path)
    ensures r == 1 ==> |path| <= 0xFFFF && dev.sent == old(dev.sent) + Frame(1, path)
    ensures r == 1 ==> WholeListing(got) && old(dev.incoming) == OkFrames(got) + tail
                       && listing == before + Listing(got)
                       && (if got[|got| - 1] == [] then tail == dev.incoming else Trouble(dev, 200))
    ensures r == 0 && |path| <= 0xFFFF ==>
              Trouble(dev, 5000)
              || (old(dev.incoming) == OkFrames(got) + tail && NoOkFrame(tail) && |tail| >= 7 && [] !in got)
  {
    hide Frame;
    hide NoOkFrame;
    hide Listing;
    listing, got, tail := before, [], dev.incoming;
    var ok := SendCommand(dev, LIST, path);
    if !ok { return 0, listing, got, tail; }
    ghost var stream, sent := dev.incoming, dev.sent;
    assert stream == OkFrames(got) + tail && before + Listing([]) == before by { ListingNil(before); }
    hide OkFrames;
    var rc, reply := TryReadReply(dev, IDLE_CYCLES);
    if rc != 1 {
      if !(MAGIC <= tail) { BadHeaderIsNoOkFrame(tail); }
      return 0, listing, got, tail;
    }
    while true
      invariant |reply.payload| <= 0xFFFF && tail == Frame(reply.status, reply.payload) + dev.incoming
      invariant (forall p :: p in got ==> |p| <= 0xFFFF) && [] !in got
      invariant stream == OkFrames(got) + tail && listing == before + Listing(got)
      invariant Onward(dev) && dev.sent == sent
      decreases |dev.incoming|
    {
      listing := AppendPayload(listing, reply.payload, before, got);
      if reply.status != OK {
        OtherStatusIsNoOkFrame(reply.status, reply.payload, dev.incoming);
        return 0, listing, got, tail;
      }
      OkFramesSnoc(got, reply.payload);
      Regroup(OkFrames(got), Frame(OK, reply.payload), dev.incoming);
      got := got + [reply.payload];
      tail := dev.incoming;
      if reply.payload == [] { return 1, listing, got, tail; }
      rc, reply := TryReadReply(dev, 200);
      if rc == 0 {
        assert Trouble(dev, 200);
        return 1, listing, got, tail;
      }
      if rc < 0 {
        if !(MAGIC <= tail) { BadHeaderIsNoOkFrame(tail); }
        return 0, listing, got, tail;
      }
    }
  }

  lemma Regroup(a: Stream, b: Stream, c: Stream)
    ensures a + (b + c) == a + b + c
  {
  }

  lemma CompletedBehind(before: Stream, sofar: Stream, p: Stream)
    requires p != []
    ensures var r := before + sofar + p;
            r[|r| - 1] == p[|p| - 1]
            && before + (sofar + Completed(p)) == if r[|r| - 1] == NEWLINE then r else r + [NEWLINE]
  {
  }

  method AppendPayload(listing: Stream, p: Stream, ghost before: Stream, ghost got: seq<Stream>) returns (r: Stream)
    requires listing == before + Listing(got)
    ensures r == before + Listing(got + [p])
  {
    ListingSnoc(got, p);
    hide Listing;
    r := listing;
    if p != [] {
      CompletedBehind(before, Listing(got), p);
      r := r + p;
      if r[|r| - 1] != NEWLINE { r := r + [NEWLINE]; }
    } else {
      assert Listing(got) + [] == Listing(got);
    }
  }

  /** Two readings of one stream as replies: both complete ones are the same. */
  lemma {:induction false} ListingDecodes(ps: seq<Stream>, rest: Stream, got: seq<Stream>, tail: Stream)
    requires (forall p :: p in ps ==> |p| <= 0xFFFF && p != []) && (forall p :: p in got ==> |p| <= 0xFFFF)
    requires OkFrames(ps) + (Frame(OK, []) + rest) == OkFrames(got) + tail
    requires [] in got ==> WholeListing(got) && got[|got| - 1] == []
    ensures if [] in got then got == ps + [[]] && tail == rest else !NoOkFrame(tail)
    decreases |got|
  {
    hide Frame;
    hide OkFrames;
    hide NoOkFrame;
    var end := Frame(OK, []) + rest;
    NilFrames(end);
    NilFrames(tail);
    if ps != [] { ConsFrames(ps, end); }
    if got == [] {
      if ps == [] { OkFrameStarts([], rest); } else { OkFrameStarts(ps[0], OkFrames(ps[1..]) + end); }
    } else {
      var more := OkFrames(got[1..]) + tail;
      ConsFrames(got, tail);
      if ps == [] {
        FrameUnique(OK, [], rest, OK, got[0], more);
        LoneSentinel(got, tail);
      } else {
        FrameUnique(OK, ps[0], OkFrames(ps[1..]) + end, OK, got[0], more);
        assert got == [got[0]] + got[1..] && ps == [ps[0]] + ps[1..];
        ListingDecodes(ps[1..], rest, got[1..], tail);
        if [] in got { assert ps + [[]] == [ps[0]] + (ps[1..] + [[]]); }
      }
    }
  }

  lemma ConsFrames(ps: seq<Stream>, x: Stream)
    requires ps != [] && forall p :: p in ps ==> |p| <= 0xFFFF
    ensures OkFrames(ps) + x == Frame(OK, ps[0]) + (OkFrames(ps[1..]) + x)
  {
    hide Frame;
  }

  lemma NilFrames(x: Stream)
    ensures OkFrames([]) + x == x
  {
  }

  lemma OkFrameStarts(p: Stream, rest: Stream)
    requires |p| <= 0xFFFF
    ensures !NoOkFrame(Frame(OK, p) + rest)
  {
  }

  lemma LoneSentinel(got: seq<Stream>, tail: Stream)
    requires WholeListing(got) && got[0] == []
    ensures got == [[]] && OkFrames(got[1..]) + tail == tail
  {
    assert |got| == 1;
  }

  /**
   A listing of any number of packets, delivered in any fragments: without an error, an
   interrupt or a long silence, DoListStr returns exactly the packets' text and leaves
   what follows the end marker.
   */
  method ListingSurvivesFragments(dev: Device, path: Stream, ghost ps: seq<Stream>, ghost rest: Stream)
    returns (r: int, listing: Stream)
    requires |path| <= 0xFFFF && (forall p :: p in ps ==> |p| <= 0xFFFF && p != [])
    requires dev.incoming == OkFrames(ps) + (Frame(OK, []) + rest)
    modifies dev
    ensures Trouble(dev, 200)
            || (r == 1 && listing == Listing(ps) && dev.incoming == rest && dev.sent == old(dev.sent) + Frame(1, path))
  {
    hide Frame;
    hide NoOkFrame;
    ghost var got, tail;
    r, listing, got, tail := DoListStr(dev, path, []);
    if !Trouble(dev, 200) {
      ListingDecodes(ps, rest, got, tail);
      ListingSnoc(ps, []);
    }
  }

  /** Replies and a rest shorter than a header: any reading of them as replies is of the first ones. */
  lemma {:induction false} CutDecodes(ps: seq<Stream>, part: Stream, got: seq<Stream>, tail: Stream)
    requires (forall p :: p in ps ==> |p| <= 0xFFFF) && (forall p :: p in got ==> |p| <= 0xFFFF)
    requires |part| < 7 && OkFrames(ps) + part == OkFrames(got) + tail
    ensures got <= ps && (|tail| < 7 || !NoOkFrame(tail))
    decreases |got|
  {
    hide Frame;
    hide OkFrames;
    hide NoOkFrame;
    NilFrames(part);
    NilFrames(tail);
    if ps != [] { ConsFrames(ps, part); }
    if got == [] {
      if ps != [] { OkFrameStarts(ps[0], OkFrames(ps[1..]) + part); }
    } else {
      ConsFrames(got, tail);
      if ps != [] {
        FrameUnique(OK, ps[0], OkFrames(ps[1..]) + part, OK, got[0], OkFrames(got[1..]) + tail);
        CutDecodes(ps[1..], part, got[1..], tail);
        assert got == [got[0]] + got[1..] && ps == [ps[0]] + ps[1..];
      }
    }
  }

  /**
   A listing that breaks off, before its end marker, at or inside a header: without an error,
   an interrupt or a silence of the long limit it is reported as complete all the same.
   */
  method ListingCutInHeader(dev: Device, path: Stream, ghost ps: seq<Stream>, ghost part: Stream)
    returns (r: int, listing: Stream, ghost got: seq<Stream>)
    requires |path| <= 0xFFFF && (forall p :: p in ps ==> |p| <= 0xFFFF && p != [])
    requires |part| < 7 && dev.incoming == OkFrames(ps) + part
    modifies dev
    ensures Trouble(dev, 5000) || r == 1
    ensures r == 1 ==> got != [] && got <= ps && listing == Listing(got) && Trouble(dev, 200)
  {
    hide Frame;
    hide OkFrames;
    hide NoOkFrame;
    hide Listing;
    ghost var tail;
    r, listing, got, tail := DoListStr(dev, path, []);
    if r == 1 || !Trouble(dev, 5000) { CutDecodes(ps, part, got, tail); }
    if r == 1 { assert got[|got| - 1] in ps; }
  }
}
