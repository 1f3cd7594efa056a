/** The debugger's circular buffer: one writer, one reader, two pointers, memory in between. */
module Ring {
  import opened Bytes

  /** SCD_STRUCT_SIZE - SCD_PROMPT_SIZE - 32. */
  const RBUFFER_SIZE := 2784

  /** The position n places behind p. */
  function At(size: nat, p: nat, n: nat): (r: nat)
    requires p < size && n < size
    ensures r < size
  {
    if p + n < size then p + n else p + n - size
  }

  /** How far the write pointer is ahead of the read pointer. */
  function Used(size: nat, readptr: nat, writeptr: nat): (n: nat)
    requires readptr < size && writeptr < size
    ensures n < size && At(size, readptr, n) == writeptr
  {
    if writeptr >= readptr then writeptr - readptr else writeptr + size - readptr
  }

  /** The source's test for enough room. */
  predicate Fits(size: nat, readptr: nat, writeptr: nat, n: nat)
    requires readptr < size && writeptr < size
  {
    if writeptr >= readptr then !(n + 1 > size - writeptr + readptr - 1)
    else !(n + 1 > readptr - writeptr - 1)
  }

  /** It always leaves two places free, so equal pointers only mean an empty buffer. */
  lemma FitsLeavesTwo(size: nat, readptr: nat, writeptr: nat, n: nat)
    requires readptr < size && writeptr < size
    ensures Fits(size, readptr, writeptr, n) <==> Used(size, readptr, writeptr) + n + 2 <= size
  {
  }

  /** The bytes from the read pointer up to the write pointer. */
  function Unread(buf: seq<byte>, readptr: nat, writeptr: nat): (s: seq<byte>)
    requires readptr < |buf| && writeptr < |buf|
    ensures |s| == Used(|buf|, readptr, writeptr)
    ensures forall i :: 0 <= i < |s| ==> s[i] == buf[At(|buf|, readptr, i)]
  {
    if writeptr >= readptr then buf[readptr..writeptr] else buf[readptr..] + buf[..writeptr]
  }

  /** The buffer with the data placed from the write pointer on, around the end, and nothing else changed. */
  ghost predicate Placed(was: seq<byte>, now: seq<byte>, writeptr: nat, data: seq<byte>) {
    && writeptr < |was| == |now| && |data| < |was|
    && forall i :: 0 <= i < |was| ==>
         var n := Used(|was|, writeptr, i); now[i] == if n < |data| then data[n] else was[i]
  }

  /** Data placed in free places only is appended to what is unread. */
  lemma WriteAppends(was: seq<byte>, now: seq<byte>, readptr: nat, writeptr: nat, data: seq<byte>)
    requires Placed(was, now, writeptr, data)
    requires readptr < |was| && Used(|was|, readptr, writeptr) + |data| + 2 <= |was|
    ensures Unread(now, readptr, At(|was|, writeptr, |data|)) == Unread(was, readptr, writeptr) + data
  {
    hide Unread;
    var size, used := |was|, Used(|was|, readptr, writeptr);
    var u := Unread(now, readptr, At(size, writeptr, |data|));
    assert |u| == used + |data|;
    forall i | 0 <= i < used + |data| ensures u[i] == (Unread(was, readptr, writeptr) + data)[i] {
      var at := At(size, readptr, i);
      assert Used(size, writeptr, at) == if i >= used then i - used else size - used + i;
    }
  }

  class CircBuffer {
    var readptr: nat
    var writeptr: nat
    const rbuffer: array<byte>

    ghost predicate Valid()
      reads this
    {
      readptr < rbuffer.Length && writeptr < rbuffer.Length
    }

    /** The bytes that are written and not read. */
    ghost function Contents(): (s: seq<byte>)
      reads this, rbuffer
      requires Valid()
      ensures |s| == Used(rbuffer.Length, readptr, writeptr)
    {
      Unread(rbuffer[..], readptr, writeptr)
    }

    /** scd_cbinit. */
    constructor ()
      ensures Valid() && Contents() == [] && rbuffer.Length == RBUFFER_SIZE && fresh(rbuffer)
    {
      readptr, writeptr := 0, 0;
      rbuffer := new byte[RBUFFER_SIZE](_ => 0);
    }

    /** The copy of a write: in one piece, or to the end of the buffer and on from its start. */
    method CopyIn(data: seq<byte>)
      requires Valid() && Used(rbuffer.Length, readptr, writeptr) + |data| + 2 <= rbuffer.Length
      modifies rbuffer
      ensures Placed(old(rbuffer[..]), rbuffer[..], writeptr, data)
    {
      var size, endSpace := rbuffer.Length, rbuffer.Length - writeptr;
      var first := if writeptr >= readptr && endSpace < |data| then endSpace else |data|;
      Memcpy(rbuffer, writeptr, data[..first]);
      ghost var half := rbuffer[..];
      assert forall i :: writeptr <= i < writeptr + first ==> half[i] == half[writeptr..writeptr + first][i - writeptr];
      if first < |data| {
        Memcpy(rbuffer, 0, data[first..]);
        assert forall i :: 0 <= i < |data| - first ==> rbuffer[i] == rbuffer[0..|data| - first][i];
      }
    }

    /** scd_cbwrite: all of the data, or nothing when it does not fit. */
    method Write(data: seq<byte>) returns (ghost stored: bool)
      requires Valid()
      modifies this`writeptr, rbuffer
      ensures Valid()
      ensures stored <==> |old(Contents())| + |data| + 2 <= rbuffer.Length
      ensures Contents() == if stored then old(Contents()) + data else old(Contents())
      ensures !stored ==> rbuffer[..] == old(rbuffer[..]) && writeptr == old(writeptr)
    {
      var size := rbuffer.Length;
      ghost var was := rbuffer[..];
      FitsLeavesTwo(size, readptr, writeptr, |data|);
      if writeptr >= readptr {
        if |data| + 1 > size - writeptr + readptr - 1 { return false; }
      } else {
        if |data| + 1 > readptr - writeptr - 1 { return false; }
      }
      CopyIn(data);
      WriteAppends(was, rbuffer[..], readptr, writeptr, data);
      var ptr := writeptr + |data|;
      writeptr := if ptr >= size then ptr - size else ptr;
      stored := true;
    }

    /** scd_cbread: everything that is in the buffer. */
    method Read() returns (data: seq<byte>)
      requires Valid()
      modifies this`readptr
      ensures Valid() && data == old(Contents()) && Contents() == []
    {
      data := [];
      if writeptr == readptr { return; }
      if writeptr > readptr {
        data := rbuffer[readptr..writeptr];
      } else {
        data := rbuffer[readptr..];
        data := data + rbuffer[..writeptr];
      }
      readptr := writeptr;
    }
  }
}
