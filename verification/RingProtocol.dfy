/**
 The circular buffer with the two sides running at the same time: every single byte copied
 and every pointer published is a step of its own, in any order.
 */
module RingProtocol {
  import opened Bytes
  import opened Ring

  const UINT32 := 0x1_0000_0000

  /**
   The writer reads the read pointer twice: it compares the pointers, then tests for room, in
   the form that the comparison chose. It copies before it moves its own pointer.
   */
  datatype Writer = Idle | Testing(data: seq<byte>, above: bool) | Copying(data: seq<byte>, above: bool, done: nat)

  /** The reader has looked at the write pointer once, and copies before it moves its own. */
  datatype Reader = Quiet | Reading(limit: nat, got: seq<byte>)

  /**
   `accepted` and `delivered` record the bytes of published writes and of published reads,
   `spilled` counts bytes written behind the ring.
   */
  datatype State = State(
    ring: seq<byte>,
    readptr: nat,
    writeptr: nat,
    writer: Writer,
    reader: Reader,
    accepted: seq<byte>,
    delivered: seq<byte>,
    spilled: nat)

  datatype Action =
    | Compare(data: seq<byte>)  // a write begins: the first reading of the read pointer
    | Test                      // the room test, with the second reading
    | CopyIn                    // the writer copies its next byte
    | Publish                   // the writer moves the write pointer
    | Look                      // a read begins: one reading of the write pointer
    | CopyOut                   // the reader copies its next byte
    | Release                   // the reader moves the read pointer

  predicate Bounded(s: State) {
    && s.readptr < |s.ring| && s.writeptr < |s.ring| < 0x8000_0000
    && (!s.writer.Idle? ==> |s.writer.data| < UINT32)
    && (s.writer.Copying? ==> s.writer.done <= |s.writer.data|)
    && (s.reader.Reading? ==> s.reader.limit < |s.ring| && |s.reader.got| < |s.ring|)
  }

  /** The room test of either branch, in unsigned 32-bit arithmetic. */
  predicate Passes(size: nat, readptr: nat, writeptr: nat, n: nat, above: bool) {
    (n + 1) % UINT32 <= (if above then size - writeptr + readptr - 1 else readptr - writeptr - 1) % UINT32
  }

  /** Where byte k of a write goes: only the branch for a write pointer above goes on at the start. */
  function Place(size: nat, writeptr: nat, k: nat, above: bool): nat {
    if above && writeptr + k >= size then writeptr + k - size else writeptr + k
  }

  /** One step; an action that is not possible changes nothing, and none is when a pointer left the ring. */
  function Next(s: State, a: Action): State {
    if !Bounded(s) then s else
    var size := |s.ring|;
    match a
    case Compare(data) =>
      if s.writer.Idle? && |data| < UINT32 then s.(writer := Testing(data, s.writeptr >= s.readptr)) else s
    case Test =>
      if s.writer.Testing? then
        var w := s.writer;
        s.(writer := if Passes(size, s.readptr, s.writeptr, |w.data|, w.above) then Copying(w.data, w.above, 0) else Idle)
      else s
    case CopyIn =>
      if s.writer.Copying? && s.writer.done < |s.writer.data| then
        var k := s.writer.done;
        var place := Place(size, s.writeptr, k, s.writer.above);
        var more := s.(writer := Copying(s.writer.data, s.writer.above, k + 1));
        if place < size then more.(ring := s.ring[place := s.writer.data[k]]) else more.(spilled := s.spilled + 1)
      else s
    case Publish =>
      if s.writer.Copying? && s.writer.done == |s.writer.data| then
        var ptr := s.writeptr + |s.writer.data|;
        s.(writeptr := if ptr >= size then ptr - size else ptr, writer := Idle, accepted := s.accepted + s.writer.data)
      else s
    case Look =>
      if s.reader.Quiet? then s.(reader := Reading(s.writeptr, [])) else s
    case CopyOut =>
      if s.reader.Reading? && |s.reader.got| < Used(size, s.readptr, s.reader.limit) then
        s.(reader := Reading(s.reader.limit, s.reader.got + [s.ring[At(size, s.readptr, |s.reader.got|)]]))
      else s
    case Release =>
      if s.reader.Reading? && |s.reader.got| == Used(size, s.readptr, s.reader.limit) then
        s.(readptr := s.reader.limit, reader := Quiet, delivered := s.delivered + s.reader.got)
      else s
  }

  /** Accepted bytes that are not delivered yet. */
  function Pending(s: State): seq<byte>
    requires s.delivered <= s.accepted
  {
    s.accepted[|s.delivered|..]
  }

  /** A write of n bytes stays in the ring, and leaves a place free. */
  predicate Safe(size: nat, readptr: nat, writeptr: nat, n: nat, above: bool)
    requires readptr < size && writeptr < size
  {
    Used(size, readptr, writeptr) + n + 1 <= size && (above || writeptr + n <= size)
  }

  /** What every step keeps, except a test that overruns. */
  ghost predicate Inv(s: State) {
    && Bounded(s) && s.delivered <= s.accepted && s.spilled == 0
    && var p, size := Pending(s), |s.ring|;
    && |p| == Used(size, s.readptr, s.writeptr)
    && (forall i :: 0 <= i < |p| ==> s.ring[At(size, s.readptr, i)] == p[i])
    && (s.writer.Testing? && s.writer.above ==> s.readptr <= s.writeptr)
    && (s.writer.Copying? ==>
          && Safe(size, s.readptr, s.writeptr, |s.writer.data|, s.writer.above)
          && forall j :: 0 <= j < s.writer.done ==> s.ring[At(size, s.writeptr, j)] == s.writer.data[j])
    && (s.reader.Reading? ==>
          && var n := Used(size, s.readptr, s.reader.limit);
          && |s.reader.got| <= n <= |p| && s.reader.got == p[..|s.reader.got|])
  }

  /**
   A test that lets a write through which does not fit: the comparison saw the read pointer
   ahead, it has come around since, and the difference wraps; or the length itself wraps.
   */
  predicate Overruns(s: State) {
    s.writer.Testing? &&
    var size, r, w, n := |s.ring|, s.readptr, s.writeptr, |s.writer.data|;
    || n + 1 == UINT32
    || (!s.writer.above && r <= w && n + 2 + (w - r) <= UINT32 && (w + n > size || (r == 0 && w + n == size)))
  }

  /** The two readings agree: the test is the one of a write without interference. */
  lemma PassesIsFits(size: nat, r: nat, w: nat, n: nat)
    requires r < size && w < size < 0x8000_0000 && n + 1 < UINT32
    ensures Passes(size, r, w, n, w >= r) <==> Fits(size, r, w, n)
  {
  }

  /** Exactly the overruns pass the test without being safe. */
  lemma PassesUnsafely(s: State)
    requires Bounded(s) && s.writer.Testing? && (s.writer.above ==> s.readptr <= s.writeptr)
    ensures var size, r, w, n, above := |s.ring|, s.readptr, s.writeptr, |s.writer.data|, s.writer.above;
            Passes(size, r, w, n, above) && !Safe(size, r, w, n, above) <==> Overruns(s)
  {
  }

  function Start(ring: seq<byte>): State
  {
    State(ring, 0, 0, Idle, Quiet, [], [], 0)
  }

  lemma StartInv(ring: seq<byte>)
    requires 0 < |ring| < 0x8000_0000
    ensures Inv(Start(ring))
  {
  }

  /** Steps along the ring add up. */
  lemma AtAdds(size: nat, p: nat, m: nat, n: nat)
    requires p < size && m + n < size
    ensures At(size, At(size, p, m), n) == At(size, p, m + n)
  {
  }

  /** Different distances below the size are different places. */
  lemma AtInjective(size: nat, p: nat, m: nat, n: nat)
    requires p < size && m < n < size
    ensures At(size, p, m) != At(size, p, n)
  {
  }

  lemma UsedOfAt(size: nat, p: nat, n: nat)
    requires p < size && n < size
    ensures Used(size, p, At(size, p, n)) == n
  {
  }

  lemma CompareKeeps(s: State, data: seq<byte>)
    requires Inv(s)
    ensures Inv(Next(s, Compare(data)))
  {
    hide At;
    hide Used;
    hide Safe;
  }

  /** The test keeps the invariant exactly when it does not overrun. */
  lemma TestKeepsExactly(s: State)
    requires Inv(s)
    ensures Inv(Next(s, Test)) <==> !Overruns(s)
  {
    if s.writer.Testing? { PassesUnsafely(s); }
    hide At;
    hide Used;
    hide Safe;
    hide Passes;
    hide Overruns;
  }

  /** A safe write uses the places behind the write pointer, in order. */
  lemma PlaceIsAt(size: nat, r: nat, w: nat, n: nat, k: nat, above: bool)
    requires r < size && w < size && Safe(size, r, w, n, above)
    ensures k < n ==> k < size && Place(size, w, k, above) == At(size, w, k)
    ensures n < size && (if w + n >= size then w + n - size else w + n) == At(size, w, n)
    ensures Used(size, r, w) + n < size
  {
  }

  /** A byte copied in lands behind everything that is unread. */
  lemma CopyInKeeps(s: State)
    requires Inv(s)
    ensures Inv(Next(s, CopyIn))
  {
    hide At;
    hide Used;
    hide Place;
    hide Safe;
    if s.writer.Copying? && s.writer.done < |s.writer.data| {
      PlaceIsAt(|s.ring|, s.readptr, s.writeptr, |s.writer.data|, s.writer.done, s.writer.above);
      var size, p, k := |s.ring|, Pending(s), s.writer.done;
      var place := At(size, s.writeptr, k);
      AtAdds(size, s.readptr, |p|, k);
      var t := Next(s, CopyIn);
      assert t.ring == s.ring[place := s.writer.data[k]];
      forall i | 0 <= i < |p| ensures t.ring[At(size, s.readptr, i)] == p[i] {
        AtInjective(size, s.readptr, i, |p| + k);
      }
      forall j | 0 <= j < k ensures t.ring[At(size, s.writeptr, j)] == s.writer.data[j] {
        AtInjective(size, s.writeptr, j, k);
      }
    }
  }

  lemma PublishKeeps(s: State)
    requires Inv(s)
    ensures Inv(Next(s, Publish))
  {
    hide At;
    hide Used;
    hide Safe;
    if s.writer.Copying? && s.writer.done == |s.writer.data| {
      PlaceIsAt(|s.ring|, s.readptr, s.writeptr, |s.writer.data|, 0, s.writer.above);
      var size, p, data := |s.ring|, Pending(s), s.writer.data;
      var t := Next(s, Publish);
      assert Pending(t) == p + data;
      AtAdds(size, s.readptr, |p|, |data|);
      UsedOfAt(size, s.readptr, |p| + |data|);
      forall i | 0 <= i < |p| + |data| ensures t.ring[At(size, s.readptr, i)] == (p + data)[i] {
        if i >= |p| { AtAdds(size, s.readptr, |p|, i - |p|); }
      }
    }
  }

  lemma LookKeeps(s: State)
    requires Inv(s)
    ensures Inv(Next(s, Look))
  {
    hide At;
    hide Used;
  }

  lemma CopyOutKeeps(s: State)
    requires Inv(s)
    ensures Inv(Next(s, CopyOut))
  {
    hide At;
    hide Used;
    if s.reader.Reading? {
      var p, n := Pending(s), |s.reader.got|;
      if n < Used(|s.ring|, s.readptr, s.reader.limit) {
        assert s.ring[At(|s.ring|, s.readptr, n)] == p[n];
        assert p[..n + 1] == p[..n] + [p[n]];
      }
    }
  }

  /** Nearer to the write pointer the read pointer leaves more room, and stays below when it was. */
  lemma NearerIsSafe(size: nat, r: nat, w: nat, n: nat, above: bool, limit: nat)
    requires r < size && w < size && limit < size && Used(size, r, limit) <= Used(size, r, w)
    ensures Safe(size, r, w, n, above) ==> Safe(size, limit, w, n, above)
    ensures r <= w ==> limit <= w
  {
  }

  lemma ReleaseKeeps(s: State)
    requires Inv(s)
    ensures Inv(Next(s, Release))
  {
    hide At;
    hide Used;
    hide Safe;
    if s.reader.Reading? && |s.reader.got| == Used(|s.ring|, s.readptr, s.reader.limit) {
      var size, p, n := |s.ring|, Pending(s), |s.reader.got|;
      NearerIsSafe(size, s.readptr, s.writeptr, if s.writer.Idle? then 0 else |s.writer.data|,
                   s.writer.Idle? || s.writer.above, s.reader.limit);
      var t := Next(s, Release);
      assert s.delivered + p == s.accepted;
      assert t.delivered + p[n..] == s.accepted;
      assert Pending(t) == p[n..];
      AtAdds(size, s.readptr, n, |p| - n);
      UsedOfAt(size, t.readptr, |p| - n);
      forall i | 0 <= i < |p| - n ensures t.ring[At(size, t.readptr, i)] == p[n..][i] {
        AtAdds(size, s.readptr, n, i);
        assert p[n..][i] == p[n + i];
      }
    }
  }

  /** Every step but an overrunning test keeps the invariant; that one breaks it. */
  lemma NextKeepsExactly(s: State, a: Action)
    requires Inv(s)
    ensures Inv(Next(s, a)) <==> !(a == Test && Overruns(s))
  {
    hide Next;
    hide Inv;
    hide Overruns;
    match a
    case Compare(data) => CompareKeeps(s, data);
    case Test => TestKeepsExactly(s);
    case CopyIn => CopyInKeeps(s);
    case Publish => PublishKeeps(s);
    case Look => LookKeeps(s);
    case CopyOut => CopyOutKeeps(s);
    case Release => ReleaseKeeps(s);
  }

  /** The state after any number of steps in any order. */
  function Execute(s: State, run: seq<Action>): State
    decreases |run|
  {
    if run == [] then s else Execute(Next(s, run[0]), run[1..])
  }

  /** No test of the run overruns. */
  predicate Orderly(s: State, run: seq<Action>)
    decreases |run|
  {
    run == [] || (!(run[0] == Test && Overruns(s)) && Orderly(Next(s, run[0]), run[1..]))
  }

  lemma {:induction false} OrderlyRunKeeps(s: State, run: seq<Action>)
    requires Inv(s) && Orderly(s, run)
    ensures Inv(Execute(s, run))
    decreases |run|
  {
    hide Inv;
    hide Next;
    hide Overruns;
    if run != [] {
      NextKeepsExactly(s, run[0]);
      OrderlyRunKeeps(Next(s, run[0]), run[1..]);
    }
  }

  /**
   First in, first out, in every interleaving without an overrun: what the reader has
   delivered and is about to deliver is a prefix of what the writer has published, equal
   pointers mean that all of it was delivered, and nothing was written behind the ring.
   */
  lemma FifoInEveryRun(ring: seq<byte>, run: seq<Action>)
    requires 0 < |ring| < 0x8000_0000 && Orderly(Start(ring), run)
    ensures var s := Execute(Start(ring), run);
            && Inv(s) && s.spilled == 0 && s.delivered <= s.accepted
            && (s.reader.Reading? ==> s.delivered + s.reader.got <= s.accepted)
            && (s.readptr == s.writeptr <==> s.delivered == s.accepted)
  {
    StartInv(ring);
    OrderlyRunKeeps(Start(ring), run);
    var s := Execute(Start(ring), run);
    hide Execute;
    var p := Pending(s);
    assert s.delivered + p == s.accepted;
    if s.reader.Reading? {
      assert s.delivered + s.reader.got == s.accepted[..|s.delivered| + |s.reader.got|];
    }
  }

  /** Both readings of the read pointer say the same about the branch, and the length does not wrap. */
  predicate Agrees(s: State) {
    s.writer.Testing? ==>
      (s.writer.above <==> s.writeptr >= s.readptr) && |s.writer.data| + 1 != UINT32
  }

  /** The reader hands nothing back between the readings of the branch for a write pointer below. */
  predicate Unraced(s: State, run: seq<Action>)
    decreases |run|
  {
    run == [] ||
    (&& (run[0] == Release ==> !(s.writer.Testing? && !s.writer.above))
     && (run[0].Compare? ==> |run[0].data| + 1 != UINT32)
     && Unraced(Next(s, run[0]), run[1..]))
  }

  lemma AgreesStays(s: State, a: Action)
    requires Inv(s) && Agrees(s) && (a == Release ==> !(s.writer.Testing? && !s.writer.above))
    requires a.Compare? ==> |a.data| + 1 != UINT32
    ensures !Overruns(s) && Agrees(Next(s, a))
  {
    NextKeepsExactly(s, a);
    hide At;
    hide Used;
    hide Safe;
    hide Passes;
  }

  /** Seen with one value of the read pointer, every write is orderly. */
  lemma {:induction false} UnracedIsOrderly(s: State, run: seq<Action>)
    requires Inv(s) && Agrees(s) && Unraced(s, run)
    ensures Orderly(s, run)
    decreases |run|
  {
    hide Inv;
    hide Next;
    hide Agrees;
    hide Overruns;
    if run != [] {
      AgreesStays(s, run[0]);
      NextKeepsExactly(s, run[0]);
      UnracedIsOrderly(Next(s, run[0]), run[1..]);
    }
  }

  lemma {:induction false} ExecuteAppend(s: State, a: seq<Action>, b: seq<Action>)
    ensures Execute(s, a + b) == Execute(Execute(s, a), b)
    decreases |a|
  {
    hide Next;
    if a == [] {
      assert a + b == b;
    } else {
      assert (a + b)[1..] == a[1..] + b;
      ExecuteAppend(Next(s, a[0]), a[1..], b);
    }
  }

  lemma ExecuteOne(s: State, a: Action)
    ensures Execute(s, [a]) == Next(s, a)
  {
    hide Next;
    assert [a][1..] == [];
  }

  function Times(a: Action, n: nat): (r: seq<Action>)
    ensures |r| == n
  {
    seq(n, _ => a)
  }

  lemma TimesFirst(s: State, a: Action, n: nat)
    ensures Execute(s, Times(a, n)) == if n == 0 then s else Execute(Next(s, a), Times(a, n - 1))
  {
    hide Next;
    if n > 0 { assert Times(a, n)[1..] == Times(a, n - 1); }
  }

  /** The first byte of a write that is behind the ring. */
  function Edge(size: nat, writeptr: nat, above: bool): int {
    if above then 2 * size - writeptr else size - writeptr
  }

  /** The copy of a write, without interference: every byte from the edge on lands behind the ring. */
  lemma {:induction false} CopyAllIn(s: State, n: nat)
    requires Bounded(s) && s.writer.Copying? && n == |s.writer.data| - s.writer.done
    ensures var t := Execute(s, Times(CopyIn, n));
            var edge := Edge(|s.ring|, s.writeptr, s.writer.above);
            && t == s.(ring := t.ring, spilled := t.spilled, writer := s.writer.(done := |s.writer.data|))
            && |t.ring| == |s.ring|
            && t.spilled == s.spilled + (if |s.writer.data| <= edge then 0
                                         else if s.writer.done <= edge then |s.writer.data| - edge else n)
    decreases n
  {
    TimesFirst(s, CopyIn, n);
    hide Execute;
    if n > 0 {
      assert Next(s, CopyIn).writer.done == s.writer.done + 1;
      CopyAllIn(Next(s, CopyIn), n - 1);
    }
  }

  lemma {:induction false} CopyWhileIdle(s: State, n: nat)
    requires s.writer.Idle?
    ensures Execute(s, Times(CopyIn, n)) == s
    decreases n
  {
    TimesFirst(s, CopyIn, n);
    hide Execute;
    if n > 0 { CopyWhileIdle(s, n - 1); }
  }

  /** The steps of a write from its test on. */
  function Rest(n: nat): seq<Action> { [Test] + Times(CopyIn, n) + [Publish] }

  lemma ExecuteRest(s: State, n: nat)
    ensures Execute(s, Rest(n)) == Next(Execute(Next(s, Test), Times(CopyIn, n)), Publish)
  {
    hide Next;
    hide Execute;
    ExecuteAppend(s, [Test], Times(CopyIn, n));
    ExecuteAppend(s, [Test] + Times(CopyIn, n), [Publish]);
    ExecuteOne(s, Test);
    ExecuteOne(Execute(s, [Test] + Times(CopyIn, n)), Publish);
  }

  lemma {:induction false} CopiesKeep(s: State, n: nat)
    requires Inv(s)
    ensures Inv(Execute(s, Times(CopyIn, n)))
    decreases n
  {
    TimesFirst(s, CopyIn, n);
    hide *;
    if n > 0 {
      CopyInKeeps(s);
      CopiesKeep(Next(s, CopyIn), n - 1);
    }
  }

  /**
   A write that is completed from its test on keeps the invariant exactly when the test does
   not overrun. An overrun writes behind the ring, or leaves a full ring that looks empty.
   */
  lemma WriteKeepsExactly(s: State)
    requires Inv(s) && s.writer.Testing?
    ensures var t := Execute(s, Rest(|s.writer.data|));
            && (Inv(t) <==> !Overruns(s))
            && (Overruns(s) ==> t.spilled > 0 || (t.readptr == t.writeptr && t.delivered != t.accepted))
  {
    var n := |s.writer.data|;
    ExecuteRest(s, n);
    TestKeepsExactly(s);
    if Overruns(s) {
      PassesUnsafely(s);
      CopyAllIn(Next(s, Test), n);
      hide Execute;
      hide At;
    } else {
      CopiesKeep(Next(s, Test), n);
      PublishKeeps(Execute(Next(s, Test), Times(CopyIn, n)));
      hide *;
    }
  }

  /** A write without interference: published whole when two places stay free, without effect otherwise. */
  lemma WholeWrite(s: State, data: seq<byte>)
    requires Inv(s) && s.writer.Idle? && |data| + 1 != UINT32
    ensures var fits := |Pending(s)| + |data| + 2 <= |s.ring|;
            var t := Execute(s, [Compare(data)] + Rest(|data|));
            && Inv(t) && t.writer.Idle? && t.delivered == s.delivered
            && t.accepted == s.accepted + (if fits then data else [])
            && t.readptr == s.readptr && t.reader == s.reader && |t.ring| == |s.ring|
            && t.writeptr == if fits then At(|s.ring|, s.writeptr, |data|) else s.writeptr
  {
    hide *;
    var n := |data|;
    var o := Next(s, Compare(data));
    var c := Next(o, Test);
    var t := Execute(c, Times(CopyIn, n));
    ExecuteAppend(s, [Compare(data)], Rest(n));
    ExecuteOne(s, Compare(data));
    ExecuteRest(o, n);
    TestWithoutRace(s, data);
    CopiesKeep(c, n);
    PublishKeeps(t);
    if c.writer.Copying? {
      InvBounds(c);
      CopyAllIn(c, n);
      PublishMoves(c, t);
    } else {
      CopyWhileIdle(c, n);
      PublishWhenIdle(c);
    }
  }

  lemma InvBounds(s: State)
    requires Inv(s)
    ensures Bounded(s)
  {
  }

  /** Both readings at once: the write goes on exactly when two places stay free. */
  lemma TestWithoutRace(s: State, data: seq<byte>)
    requires Inv(s) && s.writer.Idle? && |data| + 1 != UINT32
    ensures s.delivered <= s.accepted
    ensures var fits := |Pending(s)| + |data| + 2 <= |s.ring|;
            var c := Next(Next(s, Compare(data)), Test);
            && Inv(c) && c == s.(writer := c.writer)
            && c.writer == if fits then Copying(data, s.writeptr >= s.readptr, 0) else Idle
  {
    CompareKeeps(s, data);
    var o := Next(s, Compare(data));
    FitsLeavesTwo(|s.ring|, s.readptr, s.writeptr, |data|);
    TestKeepsExactly(o);
    if |data| < UINT32 { PassesIsFits(|s.ring|, s.readptr, s.writeptr, |data|); }
    assert !Overruns(o);
    hide At;
    hide Used;
    hide Fits;
    hide Safe;
    hide Passes;
    hide Overruns;
  }

  /** Publishing a write that was copied whole. */
  lemma PublishMoves(c: State, t: State)
    requires Inv(c) && c.writer.Copying? && |t.ring| == |c.ring|
    requires Inv(t) && t == c.(ring := t.ring, spilled := t.spilled, writer := c.writer.(done := |c.writer.data|))
    ensures var u := Next(t, Publish);
            && c.writeptr < |c.ring| && |c.writer.data| < |c.ring|
            && u == t.(writer := Idle, accepted := c.accepted + c.writer.data,
                       writeptr := At(|c.ring|, c.writeptr, |c.writer.data|))
  {
    PlaceIsAt(|c.ring|, c.readptr, c.writeptr, |c.writer.data|, 0, c.writer.above);
    hide At;
    hide Used;
    hide Safe;
  }

  lemma PublishWhenIdle(s: State)
    requires s.writer.Idle?
    ensures Next(s, Publish) == s
  {
  }

  lemma {:induction false} CopyAllOut(s: State, n: nat)
    requires Inv(s) && s.reader.Reading? && n == Used(|s.ring|, s.readptr, s.reader.limit) - |s.reader.got|
    ensures var t := Execute(s, Times(CopyOut, n));
            && Inv(t) && t.reader.Reading? && t.reader.limit == s.reader.limit
            && |t.reader.got| == Used(|s.ring|, s.readptr, s.reader.limit)
            && t.readptr == s.readptr && t.ring == s.ring && t.accepted == s.accepted && t.delivered == s.delivered
            && t.writer == s.writer && t.writeptr == s.writeptr
    decreases n
  {
    TimesFirst(s, CopyOut, n);
    hide Execute;
    hide Used;
    hide At;
    if n > 0 {
      CopyOutKeeps(s);
      CopyAllOut(Next(s, CopyOut), n - 1);
    }
  }

  /** A read without interference delivers everything that was published when it began. */
  lemma WholeRead(s: State)
    requires Inv(s) && s.reader.Quiet?
    ensures var t := Execute(s, [Look] + Times(CopyOut, |Pending(s)|) + [Release]);
            && Inv(t) && t.delivered == s.accepted == t.accepted && t.reader.Quiet?
            && t.readptr == t.writeptr == s.writeptr && t.writer == s.writer && |t.ring| == |s.ring|
  {
    var copies := Times(CopyOut, |Pending(s)|);
    LookKeeps(s);
    var o := Next(s, Look);
    CopyAllOut(o, |Pending(s)|);
    var c := Execute(o, copies);
    ExecuteAppend(s, [Look], copies);
    ExecuteAppend(s, [Look] + copies, [Release]);
    ExecuteOne(s, Look);
    ExecuteOne(c, Release);
    hide Execute;
    hide At;
    var t := Next(c, Release);
    ReleaseKeeps(c);
    assert |t.delivered| == |s.accepted|;
    assert t.delivered <= t.accepted;
  }

  /**
   The race: the writer compares while the read pointer is ahead, the reader hands back
   everything, and only then the writer tests. Whatever fits the wrapped test goes through,
   and what is longer than the rest of the ring lands behind it.
   */
  lemma RaceSpills(s: State, data: seq<byte>)
    requires Inv(s) && s.writer.Idle? && s.writeptr < s.readptr
    requires s.reader.Reading? && s.reader.limit == s.writeptr && s.reader.got == Pending(s)
    requires s.writeptr + |data| > |s.ring| && |data| + 2 <= UINT32
    ensures var t := Execute(s, [Compare(data), Release] + Rest(|data|));
            t.spilled == s.writeptr + |data| - |s.ring| > 0
  {
    hide *;
    var n := |data|;
    var o := Next(s, Compare(data));
    var q := Next(o, Release);
    RaceSteps(s, data);
    assert [Compare(data), Release] == [Compare(data)] + [Release];
    ExecuteAppend(s, [Compare(data), Release], Rest(n));
    ExecuteAppend(s, [Compare(data)], [Release]);
    ExecuteOne(s, Compare(data));
    ExecuteOne(o, Release);
    ExecuteRest(q, n);
    var c := Next(q, Test);
    CopyAllIn(c, n);
    EdgeBelow(|s.ring|, s.writeptr);
    PublishSpillsNothing(Execute(c, Times(CopyIn, n)));
  }

  lemma RaceSteps(s: State, data: seq<byte>)
    requires Inv(s) && s.writer.Idle? && s.writeptr < s.readptr
    requires s.reader.Reading? && s.reader.limit == s.writeptr && s.reader.got == Pending(s)
    requires |data| + 2 <= UINT32
    ensures var c := Next(Next(Next(s, Compare(data)), Release), Test);
            && Bounded(c) && c.writer == Copying(data, false, 0)
            && c.ring == s.ring && c.writeptr == s.writeptr && c.spilled == 0 && s.writeptr < |s.ring|
  {
    assert |s.reader.got| == Used(|s.ring|, s.readptr, s.writeptr);
    hide Used;
    hide At;
    hide Safe;
  }

  lemma EdgeBelow(size: nat, w: nat)
    ensures Edge(size, w, false) == size - w
  {
  }

  lemma PublishSpillsNothing(s: State)
    ensures Next(s, Publish).spilled == s.spilled
  {
  }

  /** Twenty bytes written and read, 2774 more written and copied out, then the race. */
  function RaceRun(a: seq<byte>, b: seq<byte>, data: seq<byte>): seq<Action> {
    ([Compare(a)] + Rest(|a|)) + ([Look] + Times(CopyOut, |a|) + [Release])
    + (([Compare(b)] + Rest(|b|)) + ([Look] + Times(CopyOut, |b|)) + ([Compare(data), Release] + Rest(|data|)))
  }

  /** In the source's ring, from its start: 2780 bytes from place 10 on spill over by six. */
  lemma RaceHappens(ring: seq<byte>, a: seq<byte>, b: seq<byte>, data: seq<byte>)
    requires |ring| == RBUFFER_SIZE && |a| == 20 && |b| == 2774 && |data| == 2780
    ensures Execute(Start(ring), RaceRun(a, b, data)).spilled == 6
  {
    hide *;
    Numbers();
    var s0 := Start(ring);
    StartEmpty(ring);
    WriteThenRead(s0, a);
    var s1 := Execute(s0, [Compare(a)] + Rest(20));
    var s2 := Execute(s1, [Look] + Times(CopyOut, 20) + [Release]);
    WriteThenCopyOut(s2, b);
    var s3 := Execute(s2, [Compare(b)] + Rest(2774));
    var s4 := Execute(s3, [Look] + Times(CopyOut, 2774));
    RaceSpills(s4, data);
    RaceRunParts(s0, a, b, data);
  }

  /** Both sides idle, and nothing unread. */
  ghost predicate Resting(s: State) {
    Inv(s) && s.writer.Idle? && s.reader.Quiet? && Pending(s) == []
  }

  lemma StartEmpty(ring: seq<byte>)
    requires 0 < |ring| < 0x8000_0000
    ensures Resting(Start(ring)) && Start(ring).ring == ring && Start(ring).writeptr == 0
  {
    assert Pending(Start(ring)) == [];
  }

  lemma Numbers()
    ensures RBUFFER_SIZE == 2784 && UINT32 == 0x1_0000_0000
    ensures At(2784, 0, 20) == 20 && At(2784, 20, 2774) == 10
  {
  }

  /** What is written into a resting buffer is all that is unread. */
  lemma WriteWhenResting(s: State, data: seq<byte>)
    requires Resting(s) && |data| + 2 <= |s.ring|
    ensures var t := Execute(s, [Compare(data)] + Rest(|data|));
            && Inv(t) && t.writer.Idle? && t.reader.Quiet? && Pending(t) == data && |t.ring| == |s.ring|
            && s.writeptr < |s.ring| && t.readptr == s.writeptr
            && t.writeptr == At(|s.ring|, s.writeptr, |data|)
  {
    WholeWrite(s, data);
    hide Execute;
    hide At;
    hide Rest;
    assert s.delivered == s.accepted;
    EmptyIsLevel(s);
    assert (s.accepted + data)[|s.delivered|..] == data;
  }

  lemma EmptyIsLevel(s: State)
    requires Resting(s)
    ensures s.readptr == s.writeptr
  {
  }

  lemma WriteThenRead(s: State, data: seq<byte>)
    requires Resting(s) && |data| + 2 <= |s.ring|
    ensures var t := Execute(Execute(s, [Compare(data)] + Rest(|data|)), [Look] + Times(CopyOut, |data|) + [Release]);
            && Resting(t) && |t.ring| == |s.ring| && s.writeptr < |s.ring|
            && t.writeptr == At(|s.ring|, s.writeptr, |data|)
  {
    WriteWhenResting(s, data);
    WholeRead(Execute(s, [Compare(data)] + Rest(|data|)));
    hide Execute;
    hide At;
    hide Rest;
  }

  lemma WriteThenCopyOut(s: State, data: seq<byte>)
    requires Resting(s) && |data| + 2 <= |s.ring|
    ensures var t := Execute(Execute(s, [Compare(data)] + Rest(|data|)), [Look] + Times(CopyOut, |data|));
            && Inv(t) && t.writer.Idle? && |t.ring| == |s.ring| && s.writeptr < |s.ring|
            && t.readptr == s.writeptr && t.writeptr == At(|s.ring|, s.writeptr, |data|)
            && t.reader.Reading? && t.reader.limit == t.writeptr && t.reader.got == Pending(t)
  {
    WriteWhenResting(s, data);
    var w := Execute(s, [Compare(data)] + Rest(|data|));
    var t := Execute(w, [Look] + Times(CopyOut, |data|));
    ExecuteAppend(w, [Look], Times(CopyOut, |data|));
    ExecuteOne(w, Look);
    LookKeeps(w);
    CopyAllOut(Next(w, Look), |data|);
    hide Execute;
    hide At;
    hide Rest;
    assert t.reader.got == Pending(t);
  }

  lemma RaceRunParts(s: State, a: seq<byte>, b: seq<byte>, data: seq<byte>)
    ensures var s1 := Execute(s, [Compare(a)] + Rest(|a|));
            var s2 := Execute(s1, [Look] + Times(CopyOut, |a|) + [Release]);
            var s3 := Execute(s2, [Compare(b)] + Rest(|b|));
            var s4 := Execute(s3, [Look] + Times(CopyOut, |b|));
            Execute(s, RaceRun(a, b, data)) == Execute(s4, [Compare(data), Release] + Rest(|data|))
  {
    var p1, p2 := [Compare(a)] + Rest(|a|), [Look] + Times(CopyOut, |a|) + [Release];
    var p3, p4 := [Compare(b)] + Rest(|b|), [Look] + Times(CopyOut, |b|);
    var p5 := [Compare(data), Release] + Rest(|data|);
    assert RaceRun(a, b, data) == p1 + p2 + (p3 + p4 + p5);
    hide *;
    ExecuteAppend(s, p1 + p2, p3 + p4 + p5);
    ExecuteAppend(s, p1, p2);
    var s2 := Execute(s, p1 + p2);
    ExecuteAppend(s2, p3 + p4, p5);
    ExecuteAppend(s2, p3, p4);
  }

  /** The writer never touches a byte that is accepted and not delivered. */
  lemma UnreadNeverOverwritten(s: State, i: nat)
    requires Inv(s) && i < |Pending(s)|
    ensures Next(s, CopyIn).ring[At(|s.ring|, s.readptr, i)] == s.ring[At(|s.ring|, s.readptr, i)]
  {
    CopyInKeeps(s);
    assert Pending(Next(s, CopyIn)) == Pending(s);
  }
}
