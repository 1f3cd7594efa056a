/**
 write_all_ftdi: writing to a USB device that fails now and then, with a chunk size that is
 halved after three failed attempts and doubled after a success.
 */
module FtdiWrite {
  import opened Bytes

  const INITIAL_CHUNK := 64
  const MAX_RETRIES := 3

  /** A write: the bytes offered, and how many the device had accepted before. */
  datatype Offer = Offer(size: nat, at: nat)

  function Times(o: Offer, k: nat): (r: seq<Offer>)
    ensures |r| == k && forall i :: 0 <= i < k ==> r[i] == o
  {
    seq(k, _ => o)
  }

  /** The device: every write accepts some of the bytes, none, or fails. */
  class Usb {
    var accepted: seq<byte>
    ghost var attempts: nat  // writes since the last one that accepted something
    ghost var worst: nat     // the most there ever were
    ghost var successes: nat
    ghost var offered: seq<Offer>

    constructor ()
      ensures accepted == [] && attempts == worst == successes == 0 && offered == []
    {
      accepted, attempts, worst, successes, offered := [], 0, 0, 0, [];
    }

    /** ftdi_write_data. */
    method Write(data: seq<byte>) returns (n: int)
      requires data != []
      modifies this
      ensures n <= |data|
      ensures accepted == old(accepted) + (if n > 0 then data[..n] else [])
      ensures attempts == (if n > 0 then 0 else old(attempts) + 1)
      ensures worst == (if old(attempts) + 1 > old(worst) then old(attempts) + 1 else old(worst))
      ensures successes == old(successes) + (if n > 0 then 1 else 0)
      ensures offered == old(offered) + [Offer(|data|, |old(accepted)|)]
    {
      offered := offered + [Offer(|data|, |accepted|)];
      n :| -1 <= n <= |data|;
      if attempts + 1 > worst { worst := attempts + 1; }
      if n > 0 {
        accepted := accepted + data[..n];
        attempts := 0;
        successes := successes + 1;
      } else {
        attempts := attempts + 1;
      }
    }
  }

  predicate ChunkSize(m: nat) { m in {1, 2, 4, 8, 16, 32, 64} }

  /** Attempts that can be made from chunk size m on without a success. */
  function AttemptsFrom(m: nat): nat
    requires ChunkSize(m)
  {
    if m == 1 then 3 else 3 + AttemptsFrom(m / 2)
  }

  lemma HalfChunk(m: nat)
    requires ChunkSize(m)
    ensures AttemptsFrom(m) <= 21 && 1 <= m <= INITIAL_CHUNK
    ensures m < INITIAL_CHUNK ==> ChunkSize(m * 2)
    ensures if m == 1 then AttemptsFrom(m) == 3 else ChunkSize(m / 2) && AttemptsFrom(m) == 3 + AttemptsFrom(m / 2)
  {
    if m > 2 { HalfChunk(m / 2); }
  }

  /** Up to three attempts at one chunk. */
  method TryChunk(dev: Usb, chunk: seq<byte>) returns (n: nat, ghost tries: nat)
    requires chunk != []
    modifies dev
    ensures n <= |chunk| && dev.accepted == old(dev.accepted) + chunk[..n]
    ensures dev.attempts == (if n > 0 then 0 else old(dev.attempts) + MAX_RETRIES)
    ensures old(dev.worst) <= dev.worst && (dev.worst <= old(dev.worst) || dev.worst <= old(dev.attempts) + MAX_RETRIES)
    ensures dev.successes == old(dev.successes) + (if n > 0 then 1 else 0)
    ensures 1 <= tries <= 3 && (n == 0 ==> tries == 3)
    ensures dev.offered == old(dev.offered) + Times(Offer(|chunk|, |old(dev.accepted)|), tries)
  {
    assert old(dev.accepted) + chunk[..0] == dev.accepted;
    ghost var offer := Offer(|chunk|, |dev.accepted|);
    var attempt := 0;
    while attempt < MAX_RETRIES
      invariant 0 <= attempt <= MAX_RETRIES
      invariant dev.accepted == old(dev.accepted) && dev.successes == old(dev.successes)
      invariant dev.attempts == old(dev.attempts) + attempt
      invariant dev.offered == old(dev.offered) + Times(offer, attempt)
      invariant old(dev.worst) <= dev.worst && (dev.worst <= old(dev.worst) || dev.worst <= old(dev.attempts) + attempt)
    {
      var rc := dev.Write(chunk);
      assert Times(offer, attempt) + [offer] == Times(offer, attempt + 1);
      if rc > 0 { return rc, attempt + 1; }
      attempt := attempt + 1;
    }
    n, tries := 0, 3;
  }

  /**
   Of the offers from place i on, the first one is of 64 bytes or all of the data; every other
   one is at least half of the one before it, or all that is left in front of `end`.
   */
  ghost predicate Halving(offered: seq<Offer>, i: nat, end: nat) {
    forall k :: i <= k < |offered| ==> Fair(offered, i, end, k)
  }

  ghost predicate Fair(offered: seq<Offer>, i: nat, end: nat, k: nat)
    requires i <= k < |offered|
  {
    var least := if k == i then 64 else (offered[k - 1].size + 1) / 2;
    1 <= offered[k].size <= 64 && (offered[k].size >= least || offered[k].at + offered[k].size == end)
  }

  lemma HalvingMore(offered: seq<Offer>, i: nat, end: nat, o: Offer, tries: nat)
    requires Halving(offered, i, end) && i <= |offered| && 1 <= o.size <= 64
    requires var least := if |offered| == i then 64 else (offered[|offered| - 1].size + 1) / 2;
             o.size >= least || o.at + o.size == end
    ensures Halving(offered + Times(o, tries), i, end)
  {
    var more := Times(o, tries);
    hide Times;
    var r := offered + more;
    forall k | i <= k < |r| ensures Fair(r, i, end, k) {
      if k < |offered| {
        assert Fair(offered, i, end, k);
        assert r[k] == offered[k] && (k > i ==> r[k - 1] == offered[k - 1]);
      } else {
        assert r[k] == o && (k > |offered| ==> r[k - 1] == o);
        assert k == |offered| > i ==> r[k - 1] == offered[k - 1];
      }
    }
  }

  lemma LastThree(offered: seq<Offer>, o: Offer)
    ensures var r := offered + Times(o, 3); |r| == |offered| + 3 && r[|r| - 3..] == [o, o, o]
  {
    var three := Times(o, 3);
    assert three == [o, o, o];
    hide Times;
    assert (offered + three)[|offered|..] == three;
  }

  /** The offers so far are halving, and the next one may be of maxChunk bytes. */
  ghost predicate Paced(offered: seq<Offer>, from: nat, end: nat, maxChunk: nat) {
    && from <= |offered| && Halving(offered, from, end)
    && if |offered| == from then maxChunk == 64 else offered[|offered| - 1].size <= 2 * maxChunk
  }

  /** The last three offers were of one byte, behind the accepted ones. */
  ghost predicate GaveUp(dev: Usb)
    reads dev
  {
    var last := Offer(1, |dev.accepted|);
    |dev.offered| >= 3 && dev.offered[|dev.offered| - 3..] == [last, last, last]
  }

  lemma PacedForm(offered: seq<Offer>, from: nat, end: nat, maxChunk: nat)
    requires from <= |offered|
    ensures Paced(offered, from, end, maxChunk) <==>
            && Halving(offered, from, end)
            && if |offered| == from then maxChunk == 64 else offered[|offered| - 1].size <= 2 * maxChunk
    ensures |offered| == from ==> Halving(offered, from, end)
  {
  }

  lemma PacedMore(offered: seq<Offer>, from: nat, end: nat, maxChunk: nat, o: Offer, tries: nat)
    requires Paced(offered, from, end, maxChunk) && 1 <= o.size <= maxChunk <= 64 && tries > 0
    requires o.size == maxChunk || o.at + o.size == end
    ensures var r := offered + Times(o, tries); Halving(r, from, end) && |r| > from && r[|r| - 1] == o
  {
    HalvingMore(offered, from, end, o, tries);
    hide Halving;
  }

  /** One turn of the loop: up to three attempts at the next chunk. */
  method WriteChunk(dev: Usb, data: seq<byte>, written: nat, maxChunk: nat, ghost sofar: seq<byte>, ghost from: nat)
    returns (n: nat)
    requires written < |data| && 1 <= maxChunk <= 64 && dev.accepted == sofar + data[..written]
    requires Paced(dev.offered, from, |sofar| + |data|, maxChunk)
    modifies dev
    ensures written + n <= |data| && dev.accepted == sofar + data[..written + n]
    ensures dev.attempts == (if n > 0 then 0 else old(dev.attempts) + MAX_RETRIES)
    ensures old(dev.worst) <= dev.worst && (dev.worst <= old(dev.worst) || dev.worst <= old(dev.attempts) + MAX_RETRIES)
    ensures dev.successes == old(dev.successes) + (if n > 0 then 1 else 0)
    ensures old(dev.offered) <= dev.offered && |dev.offered| > from && Halving(dev.offered, from, |sofar| + |data|)
    ensures dev.offered[|dev.offered| - 1].size <= maxChunk
    ensures n == 0 && maxChunk == 1 ==> GaveUp(dev)
  {
    hide Halving;
    hide Times;
    var chunk := if maxChunk < |data| - written then maxChunk else |data| - written;
    ghost var offered, offer := dev.offered, Offer(chunk, |dev.accepted|);
    ghost var tries;
    n, tries := TryChunk(dev, data[written..written + chunk]);
    PacedMore(offered, from, |sofar| + |data|, maxChunk, offer, tries);
    hide Paced;
    if n == 0 { LastThree(offered, offer); }
    assert data[..written] + data[written..written + chunk][..n] == data[..written + n];
    assert dev.accepted == sofar + data[..written + n];
  }

  /**
   write_all_ftdi. Accepted bytes are always a prefix of the data; the result says whether
   it is all of them. Between two successes there are at most 21 failed attempts. The size of
   the attempts is at most halved, and it gives up only after three of them with single bytes.
   */
  method WriteAllFtdi(dev: Usb, data: seq<byte>) returns (ok: bool, writtenOut: nat)
    requires dev.attempts == 0
    modifies dev
    ensures writtenOut <= |data| && dev.accepted == old(dev.accepted) + data[..writtenOut]
    ensures ok <==> writtenOut == |data|
    ensures dev.worst <= old(dev.worst) || dev.worst <= 21
    ensures !ok ==> 3 <= dev.attempts <= 21 && GaveUp(dev)
    ensures old(dev.offered) <= dev.offered
    ensures Halving(dev.offered, |old(dev.offered)|, |old(dev.accepted)| + |data|)
    ensures dev.successes - old(dev.successes) <= writtenOut
  {
    var maxChunk: nat, written: nat := INITIAL_CHUNK, 0;
    assert old(dev.accepted) + data[..0] == dev.accepted;
    HalfChunk(64);
    assert AttemptsFrom(64) == 21;
    PacedForm(dev.offered, |dev.offered|, |dev.accepted| + |data|, 64);
    hide Halving;
    hide Paced;
    hide AttemptsFrom;
    hide ChunkSize;
    hide GaveUp;
    ghost var sofar, from := dev.accepted, |dev.offered|;
    while written < |data|
      invariant 0 <= written <= |data| && ChunkSize(maxChunk)
      invariant dev.accepted == sofar + data[..written]
      invariant dev.attempts + AttemptsFrom(maxChunk) <= 21
      invariant dev.worst <= old(dev.worst) || dev.worst <= 21
      invariant dev.successes - old(dev.successes) <= written
      invariant written == |data| ==> dev.attempts == 0 || |data| == 0
      invariant old(dev.offered) <= dev.offered && Paced(dev.offered, from, |sofar| + |data|, maxChunk)
      decreases |data| - written, maxChunk
    {
      HalfChunk(maxChunk);
      var n := WriteChunk(dev, data, written, maxChunk, sofar, from);
      if n == 0 {
        if maxChunk > 1 {
          maxChunk := maxChunk / 2;
          PacedForm(dev.offered, from, |sofar| + |data|, maxChunk);
          continue;
        }
        return false, written;
      }
      written := written + n;
      if maxChunk < INITIAL_CHUNK {
        maxChunk := if maxChunk * 2 < INITIAL_CHUNK then maxChunk * 2 else INITIAL_CHUNK;
      }
      HalfChunk(maxChunk);
      PacedForm(dev.offered, from, |sofar| + |data|, maxChunk);
    }
    PacedForm(dev.offered, from, |sofar| + |data|, maxChunk);
    return true, written;
  }
}
