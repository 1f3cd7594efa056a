/** What the streams of the compressor are worth: they stand for the input, and are short. */
module LzfLaws {
  import opened Bytes
  import opened LzfFormat
  import opened LzfParse

  /** What is written stands for the input in front of the waiting literals, in 33/32 of its size. */
  ghost predicate Sound(input: seq<byte>, c: Cut) {
    && ValidCut(input, c)
    && Expand(c.done, [], |input|) == Done(input[..c.ip - c.lit])
    && 32 * |c.done| <= 33 * (c.ip - c.lit)
  }

  lemma RunAppends(input: seq<byte>, done: seq<byte>, ip: nat, lit: nat)
    requires lit <= MAX_LIT && lit <= ip <= |input|
    requires Expand(done, [], |input|) == Done(input[..ip - lit])
    ensures Expand(done + Run(input, ip, lit), [], |input|) == Done(input[..ip])
  {
    hide Expand;
    if lit == 0 {
      assert done + [] == done;
    } else {
      var run := Run(input, ip, lit);
      assert run[1..] == input[ip - lit..ip];
      LiteralRunExpands(done, run, input, ip - lit, ip);
    }
  }

  lemma LiteralKeeps(input: seq<byte>, c: Cut)
    requires Sound(input, c) && c.ip < |input|
    ensures Sound(input, Literal(input, c))
  {
    hide Expand;
    hide Run;
    if c.lit + 1 == MAX_LIT { RunAppends(input, c.done, c.ip + 1, MAX_LIT); }
  }

  lemma ReferenceKeeps(input: seq<byte>, c: Cut, from: nat)
    requires Sound(input, c) && from < c.ip && c.ip + 4 < |input| && Usable(input, c.ip, from)
    ensures Sound(input, Reference(input, c, from))
  {
    hide Expand;
    hide Run;
    hide BackrefToken;
    RunAppends(input, c.done, c.ip, c.lit);
    MatchRepeats(input, from, c.ip);
    BackrefExpands(c.done + Run(input, c.ip, c.lit), input, c.ip, c.ip - from - 1, MatchLen(input, from, c.ip));
    hide MatchLen;
    hide Repeats;
  }

  lemma EmitKeeps(input: seq<byte>, c: Cut, from: int)
    requires Sound(input, c) && c.ip + 2 < |input| && from < |input|
    ensures Sound(input, Emit(input, c, from))
  {
    if Usable(input, c.ip, from) { ReferenceKeeps(input, c, from); } else { LiteralKeeps(input, c); }
    hide Sound;
    hide Reference;
    hide Literal;
  }

  lemma {:induction false} TailExpands(input: seq<byte>, c: Cut)
    requires Sound(input, c)
    ensures var z := Tail(input, c);
            Expand(z, [], |input|) == Done(input) && 32 * |z| <= 33 * |input| + 31
    decreases |input| - c.ip
  {
    if c.ip == |input| {
      RunAppends(input, c.done, c.ip, c.lit);
      assert input[..c.ip] == input;
      hide Expand;
    } else {
      LiteralKeeps(input, c);
      TailExpands(input, Literal(input, c));
      hide Expand;
      hide Sound;
    }
  }

  lemma PackedTurn(input: seq<byte>, idx: Hash, s: State)
    requires Valid(input, s)
    ensures ValidCut(input, s.cut)
    ensures s.cut.ip + 2 < |input| ==>
              && Valid(input, Turn(input, idx, s)) && s.cut.ip < Turn(input, idx, s).cut.ip
              && Packed(input, idx, s) == Packed(input, idx, Turn(input, idx, s))
    ensures s.cut.ip + 2 >= |input| ==> Packed(input, idx, s) == Tail(input, s.cut)
  {
    hide Turn;
    hide Tail;
  }

  lemma StepCut(input: seq<byte>, idx: Hash, s: State)
    requires Valid(input, s) && s.cut.ip + 2 < |input|
    ensures Turn(input, idx, s).cut == Emit(input, s.cut, Candidate(input, idx, s))
  {
  }

  /** The stream stands for the whole input, and never takes more than 33/32 of its size. */
  lemma {:induction false} PackedExpands(input: seq<byte>, idx: Hash, s: State)
    requires Valid(input, s) && Sound(input, s.cut)
    ensures var z := Packed(input, idx, s);
            Expand(z, [], |input|) == Done(input) && 32 * |z| <= 33 * |input| + 31
    decreases |input| - s.cut.ip
  {
    hide *;
    PackedTurn(input, idx, s);
    if s.cut.ip + 2 < |input| {
      StepCut(input, idx, s);
      EmitKeeps(input, s.cut, Candidate(input, idx, s));
      PackedExpands(input, idx, Turn(input, idx, s));
    } else {
      TailExpands(input, s.cut);
    }
  }

  lemma StartSound(input: seq<byte>)
    requires |input| >= 2
    ensures Sound(input, Start(input).cut)
  {
    EmptyExpands(|input|);
    assert input[..0] == [];
  }

  lemma StreamExpands(input: seq<byte>, idx: Hash)
    requires |input| >= 2
    ensures var z := Stream(input, idx);
            Expand(z, [], |input|) == Done(input) && 32 * |z| <= 33 * |input| + 31
  {
    hide Expand;
    hide Sound;
    hide Packed;
    StartSound(input);
    PackedExpands(input, idx, Start(input));
  }

  /** What a cut has written, the end of its run included. */
  function Written(input: seq<byte>, c: Cut): nat
    requires ValidCut(input, c)
  {
    |c.done| + (if c.lit == 0 then 0 else c.lit + 1)
  }

  lemma LiteralWrites(input: seq<byte>, c: Cut)
    requires ValidCut(input, c) && c.ip < |input|
    ensures Written(input, Literal(input, c)) == |c.done| + c.lit + 2
  {
  }

  lemma {:induction false} TailWrites(input: seq<byte>, c: Cut)
    requires ValidCut(input, c)
    ensures |Tail(input, c)| >= Written(input, c)
    decreases |input| - c.ip
  {
    if c.ip < |input| {
      LiteralWrites(input, c);
      TailWrites(input, Literal(input, c));
    }
  }

  /** The last two bytes take at most four. */
  lemma TailEnds(input: seq<byte>, c: Cut)
    requires ValidCut(input, c) && c.ip + 2 >= |input|
    ensures |c.done| + c.lit <= |Tail(input, c)| <= |c.done| + c.lit + 4
  {
    if c.ip < |input| {
      var d := Literal(input, c);
      assert Tail(input, c) == Tail(input, d);
      if d.ip < |input| {
        var e := Literal(input, d);
        assert Tail(input, d) == Tail(input, e) == e.done + Run(input, e.ip, e.lit);
      }
    }
  }

  lemma EmitWrites(input: seq<byte>, c: Cut, from: int)
    requires ValidCut(input, c) && c.ip + 2 < |input| && from < |input|
    ensures Need(input, c, from) <= Written(input, Emit(input, c, from)) + 3
    ensures Written(input, c) <= Written(input, Emit(input, c, from))
  {
    if Usable(input, c.ip, from) {
      hide MatchLen;
    } else {
      LiteralWrites(input, c);
    }
  }

  lemma {:induction false} PackedWrites(input: seq<byte>, idx: Hash, s: State)
    requires Valid(input, s)
    ensures |Packed(input, idx, s)| >= Written(input, s.cut)
    decreases |input| - s.cut.ip
  {
    hide *;
    PackedTurn(input, idx, s);
    if s.cut.ip + 2 < |input| {
      StepCut(input, idx, s);
      EmitWrites(input, s.cut, Candidate(input, idx, s));
      PackedWrites(input, idx, Turn(input, idx, s));
    } else {
      TailWrites(input, s.cut);
    }
  }

  lemma RoomTurn(input: seq<byte>, idx: Hash, s: State, room: nat)
    requires Valid(input, s)
    ensures s.cut.ip + 2 < |input| ==>
              (RoomFor(input, idx, s, room) <==>
               Need(input, s.cut, Candidate(input, idx, s)) <= room && RoomFor(input, idx, Turn(input, idx, s), room))
    ensures s.cut.ip + 2 >= |input| ==> (RoomFor(input, idx, s, room) <==> |s.cut.done| + s.cut.lit + 4 <= room)
  {
    hide Turn;
    hide Need;
    hide Candidate;
  }

  /** A stream fits into the room that it was written for, and is written into any four bytes more than it takes. */
  lemma {:induction false} RoomLaw(input: seq<byte>, idx: Hash, s: State, room: nat)
    requires Valid(input, s)
    ensures RoomFor(input, idx, s, room) ==> |Packed(input, idx, s)| <= room
    ensures |Packed(input, idx, s)| + 4 <= room ==> RoomFor(input, idx, s, room)
    decreases |input| - s.cut.ip
  {
    hide *;
    PackedTurn(input, idx, s);
    RoomTurn(input, idx, s, room);
    if s.cut.ip + 2 < |input| {
      var t := Turn(input, idx, s);
      StepCut(input, idx, s);
      EmitWrites(input, s.cut, Candidate(input, idx, s));
      PackedWrites(input, idx, t);
      RoomLaw(input, idx, t, room);
    } else {
      TailEnds(input, s.cut);
    }
  }

  lemma NeedSmall(input: seq<byte>, c: Cut, from: int, room: nat)
    requires Sound(input, c) && c.ip + 2 < |input| && from < |input|
    requires room >= |input| + |input| / 32 + 4
    ensures Need(input, c, from) <= room
  {
    hide Expand;
  }

  /** With 33/32 of the input and four bytes no step gives up. */
  lemma {:induction false} RoomEnough(input: seq<byte>, idx: Hash, s: State, room: nat)
    requires Valid(input, s) && Sound(input, s.cut) && room >= |input| + |input| / 32 + 4
    ensures RoomFor(input, idx, s, room)
    decreases |input| - s.cut.ip
  {
    hide *;
    PackedTurn(input, idx, s);
    RoomTurn(input, idx, s, room);
    if s.cut.ip + 2 < |input| {
      var from := Candidate(input, idx, s);
      NeedSmall(input, s.cut, from, room);
      StepCut(input, idx, s);
      EmitKeeps(input, s.cut, from);
      RoomEnough(input, idx, Turn(input, idx, s), room);
    } else {
      LastSmall(input, s.cut, room);
    }
  }

  lemma LastSmall(input: seq<byte>, c: Cut, room: nat)
    requires Sound(input, c) && c.ip + 2 >= |input| && room >= |input| + |input| / 32 + 4
    ensures |c.done| + c.lit + 4 <= room
  {
    hide Expand;
  }

  /**
   A usable candidate is taken: at a distance of up to 8192, with three equal bytes and four
   more to come, the turn writes a reference to the longest repetition of up to 264 bytes
   that ends before the last two bytes, or at a byte that differs.
   */
  lemma CandidateIsTaken(input: seq<byte>, idx: Hash, s: State)
    requires Valid(input, s) && s.cut.ip + 4 < |input|
    requires var from := Candidate(input, idx, s); 0 < from < s.cut.ip <= from + 8192
    requires var from := Candidate(input, idx, s); input[from..from + 3] == input[s.cut.ip..s.cut.ip + 3]
    ensures var t, from, ip := Turn(input, idx, s), Candidate(input, idx, s), s.cut.ip;
            var len := t.cut.ip - ip;
            && t.cut.lit == 0 && 3 <= len <= 264 && ip + len <= |input|
            && Repeats(input, ip, ip - from, len)
            && (len == 264 || ip + len + 2 >= |input| || input[ip + len] != input[from + len])
            && |t.cut.done| == Written(input, s.cut) + (if len <= 8 then 2 else 3)
  {
    hide *;
    var from, ip := Candidate(input, idx, s), s.cut.ip;
    PackedTurn(input, idx, s);
    StepCut(input, idx, s);
    ThreeEqual(input, from, ip);
    EmitForm(input, s.cut, from);
    MatchForm(input, from, ip);
  }

  lemma ThreeEqual(input: seq<byte>, from: int, ip: nat)
    requires 0 < from < ip <= from + 8192 && ip + 4 < |input|
    ensures input[from..from + 3] == input[ip..ip + 3] ==> Usable(input, ip, from)
  {
    if input[from..from + 3] == input[ip..ip + 3] {
      assert input[from..from + 3][0] == input[ip..ip + 3][0] && input[from..from + 3][1] == input[ip..ip + 3][1]
             && input[from..from + 3][2] == input[ip..ip + 3][2];
    }
  }

  lemma EmitForm(input: seq<byte>, c: Cut, from: nat)
    requires ValidCut(input, c) && from < c.ip && c.ip + 4 < |input| && Usable(input, c.ip, from)
    ensures ValidCut(input, c)
    ensures var d, len := Emit(input, c, from), MatchLen(input, from, c.ip);
            && d.ip == c.ip + len && d.lit == 0
            && |d.done| == Written(input, c) + (if len <= 8 then 2 else 3)
  {
    hide MatchLen;
  }

  lemma MatchForm(input: seq<byte>, from: nat, ip: nat)
    requires from < ip && ip + 4 < |input| && Usable(input, ip, from)
    ensures var len := MatchLen(input, from, ip);
            && 3 <= len <= 264 && ip + len <= |input|
            && Repeats(input, ip, ip - from, len)
            && (len == 264 || ip + len + 2 >= |input| || input[ip + len] != input[from + len])
  {
    hide MatchLen;
    hide Repeats;
    hide Usable;
    MatchRepeats(input, from, ip);
  }

  /** The hash value is the big-endian number of the last bytes, four at most. */
  lemma HashIsLastBytes(a: byte, b: byte, c: byte, d: byte, e: byte)
    ensures Rolled(Frst(a, b), c) == a as int * 0x1_0000 + b as int * 0x100 + c as int
    ensures Rolled(a as int * 0x1_0000 + b as int * 0x100 + c as int, d) ==
            a as int * 0x100_0000 + b as int * 0x1_0000 + c as int * 0x100 + d as int
    ensures Rolled(a as int * 0x100_0000 + b as int * 0x1_0000 + c as int * 0x100 + d as int, e) ==
            b as int * 0x100_0000 + c as int * 0x1_0000 + d as int * 0x100 + e as int
  {
  }

  /** A turn without a match enters its place in the table, and nothing else. */
  lemma PlaceIsEntered(input: seq<byte>, idx: Hash, s: State)
    requires Valid(input, s) && s.cut.ip + 2 < |input| && !Usable(input, s.cut.ip, Candidate(input, idx, s))
    ensures var t := Turn(input, idx, s);
            t.htab == s.htab[Slot(input, idx, s) := s.cut.ip] && t.hval == Hashed(input, s)
  {
    hide Valid;
    hide Emit;
    hide Rehashed;
    hide Usable;
    hide Candidate;
    hide Slot;
    hide Hashed;
  }

  lemma CandidateForm(input: seq<byte>, idx: Hash, s: State)
    requires Valid(input, s) && s.cut.ip + 2 < |input|
    ensures |s.htab| == HSIZE && Candidate(input, idx, s) == s.htab[idx(Rolled(s.hval, input[s.cut.ip + 2]))]
  {
    hide Rolled;
    assert Slot(input, idx, s) == idx(Rolled(s.hval, input[s.cut.ip + 2]));
    hide Slot;
  }

  /** A turn in the order of the loop: look up, enter, emit, and enter the end of a match. */
  lemma TurnForm(input: seq<byte>, idx: Hash, s: State)
    requires Valid(input, s) && s.cut.ip + 2 < |input|
    ensures var ip, from, t := s.cut.ip, Candidate(input, idx, s), Turn(input, idx, s);
            var hval := Rolled(s.hval, input[ip + 2]);
            var htab := s.htab[idx(hval) := ip];
            && t.cut == Emit(input, s.cut, from)
            && (if Usable(input, ip, from) && t.cut.ip + 2 < |input|
                then (t.hval, t.htab) == Rehashed(input, idx, htab, t.cut.ip)
                else t.hval == hval && t.htab == htab)
  {
    hide Emit;
    hide Rehashed;
    hide Usable;
    hide Candidate;
    hide Rolled;
  }

  /** Without any room the first step gives up. */
  lemma NoRoom(input: seq<byte>, idx: Hash)
    requires |input| >= 2
    ensures !Fits(input, idx, 0)
  {
    RoomTurn(input, idx, Start(input), 0);
    hide RoomFor;
    hide Turn;
    hide Candidate;
  }
}
