/**
 lzf_compress: the in-place LZ77 compressor, with HLOG 10, VERY_FAST, STRICT_ALIGN and
 INIT_HTAB. Pointers are indices: `ip` into the input, `op` into the output array; a hash
 slot is -1 (the zeroed pointer) or an index into the input.
 */
module Compressor {
  import opened Bytes
  import opened LzfConstant
  import opened LzfFormat
  import opened LzfLaws
  import opened LzfParse

  /** out[..] agrees with `was` outside base..base+len. */
  twostate predicate SameOutside(out: array<byte>, base: nat, len: nat)
    reads out
  {
    forall i :: 0 <= i < out.Length && !(base <= i < base + len) ==> out[i] == old(out[i])
  }

  /**
   The match scan. The three bytes at `from` and `ip` are known to be equal. The first
   sixteen comparisons do not look at maxlen; the scan stays inside the input all the same.
   */
  method MatchLength(input: seq<byte>, from: nat, ip: nat) returns (len: nat)
    requires 0 < from < ip && ip + 4 < |input|
    requires input[from..from + 3] == input[ip..ip + 3]
    ensures 3 <= len <= MAX_REF && ip + len <= |input|
    ensures Repeats(input, ip, ip - from, len)
    ensures len == MAX_REF || ip + len + 2 >= |input| || input[from + len] != input[ip + len]
    ensures len == MatchLen(input, from, ip)
  {
    hide Repeats;
    hide MatchLen;
    hide MatchCap;
    var maxlen := |input| - ip - 2;
    if maxlen > MAX_REF { maxlen := MAX_REF; }
    len := 2;
    var stopped := false;
    ThreeRepeat(input, from, ip);
    if maxlen > 16 {
      var unrolled := 0;
      while unrolled < 16 && !stopped
        invariant 0 <= unrolled <= 16 && len == 2 + unrolled
        invariant stopped ==> 3 <= len && input[from + len] != input[ip + len]
        invariant Repeats(input, ip, ip - from, if stopped then len else len + 1)
        decreases 16 - unrolled, !stopped
      {
        len := len + 1;
        unrolled := unrolled + 1;
        if input[from + len] != input[ip + len] {
          stopped := true;
        } else {
          RepeatsMore(input, ip, ip - from, len);
        }
      }
    }
    if !stopped {
      len := len + 1;
      while len < maxlen && input[from + len] == input[ip + len]
        invariant 3 <= len && ip + len <= |input| && (len <= maxlen || len == 19)
        invariant maxlen > 16 ==> len >= 19
        invariant Repeats(input, ip, ip - from, len)
      {
        RepeatsMore(input, ip, ip - from, len);
        len := len + 1;
      }
    }
    ScanEnds(|input|, ip, maxlen, len);
    MatchLenUnique(input, from, ip, len);
  }

  lemma ScanEnds(n: nat, ip: nat, maxlen: nat, len: nat)
    requires ip + 4 < n && maxlen == (if n - ip - 2 > MAX_REF then MAX_REF else n - ip - 2)
    ensures MatchCap(n, ip) == if 17 <= maxlen <= 18 then 19 else maxlen
  {
  }

  lemma ThreeRepeat(input: seq<byte>, from: nat, ip: nat)
    requires 0 < from < ip && ip + 3 <= |input| && input[from..from + 3] == input[ip..ip + 3]
    ensures Repeats(input, ip, ip - from, 3)
  {
    assert input[from..from + 3][0] == input[ip..ip + 3][0] && input[from..from + 3][1] == input[ip..ip + 3][1]
           && input[from..from + 3][2] == input[ip..ip + 3][2];
    RepeatsThree(input, from, ip);
  }

  lemma RepeatsMore(input: seq<byte>, p: nat, dist: nat, len: nat)
    requires 1 <= dist <= p && p + len < |input| && Repeats(input, p, dist, len)
    requires input[p + len - dist] == input[p + len]
    ensures Repeats(input, p, dist, len + 1)
  {
  }

  /**
   Ends the run of `lit` literals whose control byte is at op - lit - 1: writes the control
   byte, or gives its place back when the run is empty.
   */
  method StopRun(ghost input: seq<byte>, ghost ip: nat, ghost done: seq<byte>,
                 out: array<byte>, base: nat, op: nat, lit: nat) returns (op': nat)
    requires lit <= MAX_LIT && lit <= ip <= |input|
    requires op == base + |done| + lit + 1 && op - lit - 1 < out.Length && (lit > 0 ==> op <= out.Length)
    requires out[base..op - lit - 1] == done
    requires lit > 0 ==> out[op - lit..op] == input[ip - lit..ip]
    modifies out
    ensures op' == if lit == 0 then op - 1 else op
    ensures out[base..op'] == done + Run(input, ip, lit)
    ensures SameOutside(out, op - lit - 1, 1)
  {
    ghost var c := op - lit - 1;
    out[op - lit - 1] := (lit - 1) % 256;
    assert out[base..c] == done;
    op' := if lit == 0 then op - 1 else op;
    if lit > 0 {
      assert out[c..op] == [lit - 1] + out[op - lit..op];
      assert out[base..op] == out[base..c] + out[c..op];
    }
  }

  /** Writes the token of a back reference. */
  method EmitBackref(out: array<byte>, base: nat, op: nat, off: nat, len: nat) returns (op': nat)
    requires off < MAX_OFF && 3 <= len <= MAX_REF
    requires base <= op && op + 3 <= out.Length
    modifies out
    ensures op' == op + (if len - 2 < 7 then 2 else 3)
    ensures out[base..op'] == old(out[base..op]) + BackrefToken(off, len)
    ensures SameOutside(out, op, 3)
  {
    ghost var z, token := out[base..op], BackrefToken(off, len);
    var l := len - 2;
    op' := op;
    if l < 7 {
      out[op'] := off / 256 + l * 32;
      op' := op' + 1;
    } else {
      out[op'] := off / 256 + 7 * 32;
      op' := op' + 1;
      out[op'] := l - 7;
      op' := op' + 1;
    }
    out[op'] := off % 256;
    op' := op' + 1;
    assert out[base..op] == z;
    assert out[op..op'] == token;
    hide BackrefToken;
    assert out[base..op'] == z + token;
  }

  /** The buffer holds what is written so far, a place for a control byte, and the waiting literals. */
  ghost predicate Running(input: seq<byte>, c: Cut, out: array<byte>, base: nat, op: nat)
    reads out
  {
    && ValidCut(input, c)
    && op == base + |c.done| + c.lit + 1 && op - 1 <= out.Length && (c.lit > 0 ==> op <= out.Length)
    && out[base..op - c.lit - 1] == c.done
    && (c.lit > 0 ==> out[op - c.lit..op] == input[c.ip - c.lit..c.ip])
  }

  /** Puts a literal behind those that wait. */
  method PutLiteral(input: seq<byte>, ghost done: seq<byte>, ip: nat, out: array<byte>, base: nat, op: nat, ghost lit: nat)
    requires lit <= ip < |input| && op == base + |done| + lit + 1 && op < out.Length
    requires out[base..op - lit - 1] == done && (lit > 0 ==> out[op - lit..op] == input[ip - lit..ip])
    modifies out
    ensures out[base..op - lit - 1] == done && out[op - lit..op + 1] == input[ip - lit..ip + 1]
    ensures SameOutside(out, op, 1)
  {
    ghost var pending := out[op - lit..op];
    out[op] := input[ip];
    assert out[base..op - lit - 1] == done;
    assert out[op - lit..op + 1] == pending + [input[ip]];
    Longer(input, ip - lit, ip);
  }

  lemma Longer(s: seq<byte>, a: nat, b: nat)
    requires a <= b < |s|
    ensures s[a..b + 1] == s[a..b] + [s[b]]
  {
  }

  lemma LiteralForm(input: seq<byte>, c: Cut)
    requires ValidCut(input, c) && c.ip < |input|
    ensures var full := c.done + Run(input, c.ip + 1, c.lit + 1);
            Literal(input, c) == if c.lit + 1 == MAX_LIT then Cut(c.ip + 1, full, 0) else Cut(c.ip + 1, c.done, c.lit + 1)
  {
    hide Run;
  }

  /** One more literal; a full run is stopped and the next one started. */
  method AddLiteral(input: seq<byte>, ghost c: Cut, ip: nat, out: array<byte>, base: nat, op: nat, lit: nat)
    returns (op': nat, lit': nat)
    requires Running(input, c, out, base, op) && ip == c.ip < |input| && lit == c.lit && op < out.Length
    modifies out
    ensures Running(input, Literal(input, c), out, base, op') && lit' == Literal(input, c).lit
    ensures SameOutside(out, op - lit - 1, lit + 2)
  {
    hide Run;
    hide Literal;
    LiteralForm(input, c);
    PutLiteral(input, c.done, ip, out, base, op, lit);
    lit', op' := lit + 1, op + 1;
    if lit' == MAX_LIT {
      op' := StopRun(input, ip + 1, c.done, out, base, op', lit');
      lit' := 0;
      op' := op' + 1;
    }
  }

  lemma UsableAgrees(input: seq<byte>, ip: nat, from: nat)
    requires ip + 2 < |input| && from < ip && Usable(input, ip, from)
    ensures 0 < from && ip - from - 1 < MAX_OFF && input[from..from + 3] == input[ip..ip + 3]
  {
    assert input[from..from + 3] == [input[from], input[from + 1], input[from + 2]] == input[ip..ip + 3];
  }

  /** Stops the run, scans for the match length, writes the back reference and starts a new run. */
  method TakeMatch(input: seq<byte>, ghost c: Cut, ip: nat, out: array<byte>, base: nat, op: nat, lit: nat, from: nat)
    returns (op': nat, ip': nat)
    requires Running(input, c, out, base, op) && ip == c.ip && lit == c.lit
    requires from < ip && ip + 4 < |input| && Usable(input, ip, from)
    requires op - (if lit == 0 then 1 else 0) + 4 < out.Length
    modifies out
    ensures Running(input, Reference(input, c, from), out, base, op') && ip' == Reference(input, c, from).ip
    ensures op' <= op - (if lit == 0 then 1 else 0) + 4
    ensures SameOutside(out, op - lit - 1, lit + 4)
  {
    hide Run;
    hide BackrefToken;
    hide MatchLen;
    hide Repeats;
    hide Usable;
    UsableAgrees(input, ip, from);
    op' := StopRun(input, ip, c.done, out, base, op, lit);
    var len := MatchLength(input, from, ip);
    op' := EmitBackref(out, base, op', ip - from - 1, len);
    op' := op' + 1;
    ip' := ip + len;
  }

  /** The last bytes become literals; then the run is stopped. */
  method Finish(input: seq<byte>, ghost c: Cut, ip: nat, out: array<byte>, base: nat, outLen: nat, op: nat, lit: nat)
    returns (r: nat)
    requires Running(input, c, out, base, op) && ip == c.ip && lit == c.lit && |input| - 2 <= ip && |input| > 0
    requires base + outLen <= out.Length
    modifies out
    ensures r == if |c.done| + lit + 4 <= outLen then |Tail(input, c)| else 0
    ensures r > 0 ==> base + r <= out.Length && out[base..base + r] == Tail(input, c)
    ensures SameOutside(out, base, outLen)
  {
    hide Run;
    var n, outEnd := |input|, base + outLen;
    if op + 3 > outEnd { return 0; }
    var ip: nat, op: nat, lit: nat := ip, op, lit;
    ghost var d := c;
    while ip < n
      invariant Running(input, d, out, base, op) && ip == d.ip && lit == d.lit && Tail(input, d) == Tail(input, c)
      invariant n - 2 <= ip && op + (n - ip) + (if lit + (n - ip) >= MAX_LIT then 1 else 0) <= outEnd
      invariant SameOutside(out, base, outLen)
    {
      op, lit := AddLiteral(input, d, ip, out, base, op, lit);
      ip := ip + 1;
      d := Literal(input, d);
    }
    op := StopRun(input, ip, d.done, out, base, op, lit);
    r := op - base;
  }

  /** Re-enters the last two positions of a match in the hash table. */
  method Rehash(input: seq<byte>, ip: nat, htab: array<int>, idx: Hash) returns (hval: nat)
    requires 3 <= ip < |input| - 2 && htab.Length == HSIZE
    requires forall i :: 0 <= i < HSIZE ==> -1 <= htab[i] < |input|
    modifies htab
    ensures (hval, htab[..]) == Rehashed(input, idx, old(htab[..]), ip)
  {
    hval := Frst(input[ip - 2], input[ip - 1]);
    hval := Rolled(hval, input[ip]);
    htab[idx(hval)] := ip - 2;
    hval := Rolled(hval, input[ip + 1]);
    htab[idx(hval)] := ip - 1;
  }

  /** One turn of the main loop: a back reference to `from`, or one literal; not ok when out of room. */
  method Advance(input: seq<byte>, ghost c: Cut, ip: nat, out: array<byte>, base: nat, outLen: nat,
                 op: nat, lit: nat, from: int)
    returns (ok: bool, ip': nat, op': nat, lit': nat)
    requires ip + 2 < |input| && from < |input|
    requires Running(input, c, out, base, op) && ip == c.ip && lit == c.lit && op <= base + outLen + 1
    requires base + outLen <= out.Length
    modifies out
    ensures ok <==> Need(input, c, from) <= outLen
    ensures ok ==> var d := Emit(input, c, from);
                   Running(input, d, out, base, op') && ip' == d.ip && lit' == d.lit && op' <= base + outLen + 1
    ensures SameOutside(out, base, outLen)
  {
    hide MatchLen;
    hide BackrefToken;
    var outEnd := base + outLen;
    ok, ip', op', lit' := false, ip, op, lit;
    if Usable(input, ip, from) {
      if op + 3 + 1 >= outEnd {
        if op - (if lit == 0 then 1 else 0) + 3 + 1 >= outEnd { return; }
      }
      op', ip' := TakeMatch(input, c, ip, out, base, op, lit, from);
      lit' := 0;
    } else {
      if op >= outEnd { return; }
      op', lit' := AddLiteral(input, c, ip, out, base, op, lit);
      ip' := ip + 1;
    }
    ok := true;
  }

  /** The variables of the loop are those of the state machine. */
  ghost predicate Tracks(input: seq<byte>, s: State, ip: nat, hval: nat, htab: array<int>,
                         out: array<byte>, base: nat, outLen: nat, op: nat, lit: nat)
    reads out, htab
  {
    && Valid(input, s) && Running(input, s.cut, out, base, op) && op <= base + outLen + 1
    && ip == s.cut.ip && lit == s.cut.lit && hval == s.hval && htab[..] == s.htab
  }

  /** The body of the main loop. */
  method MainTurn(input: seq<byte>, ghost s: State, ip: nat, hval: nat, htab: array<int>,
                  out: array<byte>, base: nat, outLen: nat, op: nat, lit: nat, idx: Hash)
    returns (ok: bool, ip': nat, hval': nat, op': nat, lit': nat)
    requires Tracks(input, s, ip, hval, htab, out, base, outLen, op, lit)
    requires ip + 2 < |input| && base + outLen <= out.Length
    modifies out, htab
    ensures ok <==> Need(input, s.cut, Candidate(input, idx, s)) <= outLen
    ensures ok ==> Tracks(input, Turn(input, idx, s), ip', hval', htab, out, base, outLen, op', lit')
    ensures SameOutside(out, base, outLen)
  {
    hide Turn;
    hide Emit;
    hide Need;
    hide Candidate;
    hide Usable;
    hide Rehashed;
    hide Rolled;
    TurnForm(input, idx, s);
    CandidateForm(input, idx, s);
    hval' := Rolled(hval, input[ip + 2]);
    var slot := idx(hval');
    var from := htab[slot];
    htab[slot] := ip;
    ghost var entered := htab[..];
    ok, ip', op', lit' := Advance(input, s.cut, ip, out, base, outLen, op, lit, from);
    if ok && Usable(input, ip, from) && ip' < |input| - 2 {
      assert htab[..] == entered;
      UsableMoves(input, s.cut, from);
      hval' := Rehash(input, ip', htab, idx);
    }
    assert ok ==> Valid(input, Turn(input, idx, s));
  }

  lemma UsableMoves(input: seq<byte>, c: Cut, from: int)
    requires ValidCut(input, c) && c.ip + 2 < |input| && from < |input| && Usable(input, c.ip, from)
    ensures Emit(input, c, from).ip >= c.ip + 3
  {
    hide MatchLen;
  }

  /**
   lzf_compress, with whatever hash function into the table: exactly the stream of the state
   machine, or nothing exactly when the room does not do.
   */
  method LzfCompress(input: seq<byte>, out: array<byte>, base: nat, outLen: nat, idx: Hash) returns (r: nat)
    requires base + outLen <= out.Length
    // With one input byte the source reads a second one.
    requires |input| == 1 ==> outLen == 0
    modifies out
    ensures |input| < 2 ==> r == 0
    ensures |input| >= 2 ==> r == if Fits(input, idx, outLen) then |Stream(input, idx)| else 0
    ensures |input| >= 2 ==> (r > 0 <==> Fits(input, idx, outLen))
    ensures |input| >= 2 && r > 0 ==> r <= outLen && out[base..base + r] == Stream(input, idx)
    ensures r <= outLen
    ensures r > 0 ==> Expand(out[base..base + r], [], |input|) == Done(input)
    ensures 32 * r <= 33 * |input| + 31
    ensures |input| > 0 && outLen >= |input| + |input| / 32 + 4 ==> r > 0
    ensures |input| >= 2 && outLen >= 3 * (|input| / 264) + 13 && (forall i :: 0 <= i < |input| ==> input[i] == input[0]) ==>
              0 < r <= 3 * (|input| / 264) + 9
    ensures SameOutside(out, base, outLen)
  {
    hide Constant;
    hide Expand;
    hide Fits;
    hide Frst;
    hide Need;
    hide Packed;
    hide RoomFor;
    hide Running;
    hide Start;
    hide Stream;
    hide Tail;
    hide Tracks;
    hide Turn;
    hide Valid;
    hide ValidCut;
    if |input| == 0 || outLen == 0 {
      if |input| >= 2 { NoRoom(input, idx); }
      return 0;
    }
    var n := |input|;
    StreamLaws(input, idx, outLen);
    StreamForm(input, idx, outLen);
    if forall i :: 0 <= i < n ==> input[i] == input[0] { ConstantForm(input); }
    var htab := new int[HSIZE](_ => -1);
    var ip: nat, op: nat, lit: nat := 0, base + 1, 0;
    var hval := Frst(input[0], input[1]);
    ghost var s := Start(input);
    TracksStart(input, htab, out, base, outLen);
    while ip < n - 2
      invariant Tracks(input, s, ip, hval, htab, out, base, outLen, op, lit)
      invariant Valid(input, s) && ip == s.cut.ip <= n
      invariant Packed(input, idx, s) == Stream(input, idx)
      invariant RoomFor(input, idx, s, outLen) == Fits(input, idx, outLen)
      invariant SameOutside(out, base, outLen)
      decreases n - ip
    {
      TracksParts(input, s, ip, hval, htab, out, base, outLen, op, lit);
      PackedTurn(input, idx, s);
      RoomTurn(input, idx, s, outLen);
      var ok, ip', hval', op', lit' := MainTurn(input, s, ip, hval, htab, out, base, outLen, op, lit, idx);
      if !ok { return 0; }
      ip, hval, op, lit := ip', hval', op', lit';
      s := Turn(input, idx, s);
      TracksParts(input, s, ip, hval, htab, out, base, outLen, op, lit);
    }
    TracksParts(input, s, ip, hval, htab, out, base, outLen, op, lit);
    PackedTurn(input, idx, s);
    RoomTurn(input, idx, s, outLen);
    r := Finish(input, s.cut, ip, out, base, outLen, op, lit);
  }

  lemma TracksStart(input: seq<byte>, htab: array<int>, out: array<byte>, base: nat, outLen: nat)
    requires |input| >= 2 && htab.Length == HSIZE && (forall i :: 0 <= i < HSIZE ==> htab[i] == -1)
    requires base + outLen <= out.Length
    ensures Tracks(input, Start(input), 0, Frst(input[0], input[1]), htab, out, base, outLen, base + 1, 0)
  {
    assert htab[..] == Start(input).htab;
  }

  lemma TracksParts(input: seq<byte>, s: State, ip: nat, hval: nat, htab: array<int>,
                    out: array<byte>, base: nat, outLen: nat, op: nat, lit: nat)
    requires Tracks(input, s, ip, hval, htab, out, base, outLen, op, lit)
    ensures Valid(input, s) && ValidCut(input, s.cut) && Running(input, s.cut, out, base, op)
    ensures ip == s.cut.ip && lit == s.cut.lit && ip <= |input|
  {
  }
}
