/** Equal bytes are compressed as far as the format goes: three bytes for every 264. */
module LzfConstant {
  import opened Bytes
  import opened LzfFormat
  import opened LzfParse
  import opened LzfLaws

  predicate Constant(input: seq<byte>) { forall i :: 0 <= i < |input| ==> input[i] == input[0] }

  lemma ConstantForm(input: seq<byte>)
    requires |input| > 0 && forall i :: 0 <= i < |input| ==> input[i] == input[0]
    ensures Constant(input)
  {
  }

  /** The hash values of three and of four equal bytes. */
  function Three(c: byte): nat { c as int * 0x1_0101 }

  function Four(c: byte): nat { c as int * 0x101_0101 }

  lemma Rolls(c: byte)
    ensures Rolled(Frst(c, c), c) == Three(c) && Rolled(Three(c), c) == Four(c) == Rolled(Four(c), c)
  {
    HashIsLastBytes(c, c, c, c, c);
    hide Rolled;
    hide Frst;
  }

  lemma {:induction false} ExtendsToCap(input: seq<byte>, from: nat, ip: nat, len: nat, cap: nat)
    requires Constant(input) && from < ip && len <= cap && ip + cap <= |input|
    ensures Extend(input, from, ip, len, cap) == cap
    decreases cap - len
  {
    if len < cap { ExtendsToCap(input, from, ip, len + 1, cap); }
  }

  lemma ConstantMatch(input: seq<byte>, from: nat, ip: nat)
    requires Constant(input) && 0 < from < ip <= from + MAX_OFF && ip + 4 < |input|
    ensures Usable(input, ip, from) && MatchLen(input, from, ip) == MatchCap(|input|, ip)
  {
    ExtendsToCap(input, from, ip, 3, MatchCap(|input|, ip));
    hide Extend;
    hide MatchCap;
  }

  /** The place in front of the next one is in the table where the next one looks. */
  ghost predicate Primed(input: seq<byte>, idx: Hash, s: State) {
    && Valid(input, s) && 2 <= s.cut.ip && s.cut.ip + 2 < |input|
    && s.hval == Four(input[0]) && s.htab[idx(Four(input[0]))] == s.cut.ip - 1
  }

  lemma PrimedCandidate(input: seq<byte>, idx: Hash, s: State)
    requires Constant(input) && Primed(input, idx, s)
    ensures Candidate(input, idx, s) == s.cut.ip - 1
  {
    Rolls(input[0]);
    hide Rolled;
    hide Four;
    assert input[s.cut.ip + 2] == input[0];
  }

  lemma RehashedPrimes(input: seq<byte>, idx: Hash, htab: seq<int>, e: nat)
    requires Constant(input) && 2 <= e && e + 2 < |input| && |htab| == HSIZE
    requires forall i :: 0 <= i < HSIZE ==> -1 <= htab[i] < |input|
    ensures var r := Rehashed(input, idx, htab, e);
            r.0 == Four(input[0]) && r.1[idx(Four(input[0]))] == e - 1
  {
    Rolls(input[0]);
    hide Rolled;
    hide Frst;
    hide Three;
    hide Four;
    assert input[e - 2] == input[e - 1] == input[e] == input[e + 1] == input[0];
  }

  lemma TurnAfterMatch(input: seq<byte>, idx: Hash, s: State)
    requires Valid(input, s) && s.cut.ip + 2 < |input| && Usable(input, s.cut.ip, Candidate(input, idx, s))
    ensures var t := Turn(input, idx, s);
            t.cut.ip + 2 < |input| ==>
              t == var r := Rehashed(input, idx, Entered(input, idx, s), t.cut.ip); State(t.cut, r.0, r.1)
  {
    hide Valid;
    hide Emit;
    hide Rehashed;
    hide Usable;
    hide Candidate;
    hide Entered;
    hide Hashed;
  }

  /** A turn of a primed state takes everything up to the cap, and leaves a primed state. */
  lemma PrimedTurn(input: seq<byte>, idx: Hash, s: State)
    requires Constant(input) && Primed(input, idx, s) && s.cut.ip + 4 < |input|
    ensures var t := Turn(input, idx, s);
            && Valid(input, t) && t.cut.ip == s.cut.ip + MatchCap(|input|, s.cut.ip) && t.cut.lit == 0
            && |t.cut.done| <= Written(input, s.cut) + 3
            && (t.cut.ip + 2 < |input| ==> Primed(input, idx, t))
  {
    hide *;
    var ip := s.cut.ip;
    PrimedParts(input, idx, s);
    PackedTurn(input, idx, s);
    StepCut(input, idx, s);
    PrimedCandidate(input, idx, s);
    ConstantMatch(input, ip - 1, ip);
    EmitForm(input, s.cut, ip - 1);
    TurnAfterMatch(input, idx, s);
    var t := Turn(input, idx, s);
    if t.cut.ip + 2 < |input| {
      RehashedPrimes(input, idx, Entered(input, idx, s), t.cut.ip);
      PrimedForm(input, idx, t);
    }
  }

  lemma PrimedParts(input: seq<byte>, idx: Hash, s: State)
    requires Primed(input, idx, s)
    ensures Valid(input, s) && ValidCut(input, s.cut) && 2 <= s.cut.ip && s.cut.ip + 2 < |input| && MAX_OFF == 8192
  {
  }

  lemma PrimedForm(input: seq<byte>, idx: Hash, s: State)
    requires Valid(input, s) && 2 <= s.cut.ip && s.cut.ip + 2 < |input|
    requires s.hval == Four(input[0]) && |s.htab| == HSIZE && s.htab[idx(Four(input[0]))] == s.cut.ip - 1
    ensures Primed(input, idx, s)
  {
  }

  /** A turn without a usable candidate. */
  lemma LiteralTurn(input: seq<byte>, idx: Hash, s: State)
    requires Valid(input, s) && s.cut.ip + 2 < |input| && s.cut.lit + 1 < MAX_LIT
    requires !Usable(input, s.cut.ip, Candidate(input, idx, s))
    ensures Turn(input, idx, s) ==
            State(Cut(s.cut.ip + 1, s.cut.done, s.cut.lit + 1), Hashed(input, s), s.htab[Slot(input, idx, s) := s.cut.ip])
  {
    PlaceIsEntered(input, idx, s);
    StepCut(input, idx, s);
    hide Turn;
    hide Usable;
    hide Candidate;
    hide Slot;
    hide Hashed;
  }

  /** Close to the end only literals are left. */
  lemma {:induction false} FewLeft(input: seq<byte>, idx: Hash, s: State)
    requires Valid(input, s) && s.cut.ip + 4 >= |input| && s.cut.lit + (|input| - s.cut.ip) < MAX_LIT
    ensures |Packed(input, idx, s)| <= |s.cut.done| + s.cut.lit + (|input| - s.cut.ip) + 1
    decreases |input| - s.cut.ip
  {
    PackedTurn(input, idx, s);
    if s.cut.ip + 2 < |input| {
      LiteralTurn(input, idx, s);
      FewLeft(input, idx, Turn(input, idx, s));
    } else {
      FewLeftTail(input, s.cut);
    }
    hide Packed;
    hide Turn;
    hide Candidate;
    hide Tail;
  }

  lemma FewLeftTail(input: seq<byte>, c: Cut)
    requires ValidCut(input, c) && c.ip + 2 >= |input| && c.lit + (|input| - c.ip) < MAX_LIT
    ensures |Tail(input, c)| <= |c.done| + c.lit + (|input| - c.ip) + 1
  {
    if c.ip < |input| {
      var d := Literal(input, c);
      assert Tail(input, c) == Tail(input, d);
      if d.ip < |input| { assert Tail(input, d) == Tail(input, Literal(input, d)); }
    }
  }

  lemma {:induction false} PrimedLength(input: seq<byte>, idx: Hash, s: State)
    requires Constant(input) && Primed(input, idx, s) && s.cut.lit <= 2
    ensures |Packed(input, idx, s)| <= Written(input, s.cut) + 3 * ((|input| - s.cut.ip) / 264) + 6
    decreases |input| - s.cut.ip
  {
    hide *;
    var left := |input| - s.cut.ip;
    PrimedParts(input, idx, s);
    PackedTurn(input, idx, s);
    WrittenForm(input, s.cut);
    if left <= 4 {
      FewLeft(input, idx, s);
    } else {
      PrimedTurn(input, idx, s);
      var t := Turn(input, idx, s);
      CapForm(|input|, s.cut.ip);
      WrittenForm(input, t.cut);
      if t.cut.ip + 2 < |input| {
        PrimedLength(input, idx, t);
      } else {
        FewLeft(input, idx, t);
      }
    }
  }

  lemma WrittenForm(input: seq<byte>, c: Cut)
    requires ValidCut(input, c)
    ensures Written(input, c) == |c.done| + (if c.lit == 0 then 0 else c.lit + 1)
    ensures MAX_LIT == 32
  {
  }

  /** A match either takes 264 bytes, or all but at most two. */
  lemma CapForm(n: nat, ip: nat)
    requires ip + 4 < n
    ensures var left, end := n - ip, ip + MatchCap(n, ip);
            if end + 2 < n then end == ip + 264 && (n - end) / 264 == left / 264 - 1 else end <= n
  {
  }

  lemma FirstTurn(input: seq<byte>, idx: Hash)
    requires Constant(input) && |input| >= 5
    ensures var t, c := Turn(input, idx, Start(input)), input[0];
            && t.cut == Cut(1, [], 1) && t.hval == Three(c) && |t.htab| == HSIZE && t.htab[idx(Four(c))] <= 0
  {
    var s, c := Start(input), input[0];
    Rolls(c);
    assert input[1] == input[2] == c;
    hide Rolled;
    hide Frst;
    hide Three;
    hide Four;
    LiteralTurn(input, idx, s);
    hide Turn;
  }

  lemma SecondTurn(input: seq<byte>, idx: Hash, s: State)
    requires Constant(input) && |input| >= 5 && Valid(input, s) && s.cut == Cut(1, [], 1)
    requires s.hval == Three(input[0]) && s.htab[idx(Four(input[0]))] <= 0
    ensures var t := Turn(input, idx, s); t.cut == Cut(2, [], 2) && Primed(input, idx, t)
  {
    Rolls(input[0]);
    assert input[3] == input[0];
    hide Rolled;
    hide Three;
    hide Four;
    assert Candidate(input, idx, s) <= 0;
    LiteralTurn(input, idx, s);
    hide Turn;
  }

  lemma FirstTwo(input: seq<byte>, idx: Hash)
    requires Constant(input) && |input| >= 5
    ensures var s := Turn(input, idx, Turn(input, idx, Start(input)));
            Primed(input, idx, s) && s.cut == Cut(2, [], 2) && Stream(input, idx) == Packed(input, idx, s)
  {
    var s0 := Start(input);
    FirstTurn(input, idx);
    PackedTurn(input, idx, s0);
    var s1 := Turn(input, idx, s0);
    SecondTurn(input, idx, s1);
    PackedTurn(input, idx, s1);
    hide Turn;
    hide Packed;
    hide Primed;
    hide Three;
    hide Four;
  }

  /** Whatever the hash function, n equal bytes become at most three bytes for every 264 and nine more. */
  lemma ConstantStream(input: seq<byte>, idx: Hash)
    requires |input| >= 2 && Constant(input)
    ensures |Stream(input, idx)| <= 3 * (|input| / 264) + 9
  {
    StreamExpands(input, idx);
    if |input| >= 5 {
      FirstTwo(input, idx);
      var s := Turn(input, idx, Turn(input, idx, Start(input)));
      PrimedLength(input, idx, s);
      DivMonotone(|input| - 2, |input|);
    }
    hide *;
  }

  lemma DivMonotone(a: nat, b: nat)
    requires a <= b
    ensures a / 264 <= b / 264
  {
  }

  /** All that is promised of a stream and of the room for it. */
  lemma StreamLaws(input: seq<byte>, idx: Hash, room: nat)
    requires |input| >= 2
    ensures var z := Stream(input, idx);
            && Expand(z, [], |input|) == Done(input) && 0 < |z| && 32 * |z| <= 33 * |input| + 31
            && (Fits(input, idx, room) ==> |z| <= room) && (|z| + 4 <= room ==> Fits(input, idx, room))
            && (room >= |input| + |input| / 32 + 4 ==> Fits(input, idx, room))
            && (Constant(input) ==> |z| <= 3 * (|input| / 264) + 9)
  {
    hide *;
    var s := Start(input);
    StreamForm(input, idx, room);
    StreamExpands(input, idx);
    EmptyExpands(|input|);
    RoomLaw(input, idx, s, room);
    StartSound(input);
    if room >= |input| + |input| / 32 + 4 { RoomEnough(input, idx, s, room); }
    if Constant(input) { ConstantStream(input, idx); }
  }

  lemma StreamForm(input: seq<byte>, idx: Hash, room: nat)
    requires |input| >= 2
    ensures Stream(input, idx) == Packed(input, idx, Start(input))
    ensures Fits(input, idx, room) <==> RoomFor(input, idx, Start(input), room)
  {
  }
}
