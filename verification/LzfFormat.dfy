/**
 The LZF stream format: a recursive reading of the control bytes, independent of the
 loops that write and read them.

   000LLLLL <L+1 bytes>            literal run
   LLLooooo oooooooo               back reference, L+2 bytes from distance o+1
   111ooooo LLLLLLLL oooooooo      back reference, L+9 bytes from distance o+1
 */
module LzfFormat {
  import opened Bytes

  const MAX_LIT := 32
  const MAX_OFF := 8192
  const MAX_REF := 264

  datatype Outcome =
    | Done(data: seq<byte>)
    | TooBig   // the output buffer is too small
    | BadRef   // a back reference points before the output
    | Overrun  // the stream ends inside a token

  datatype Step = Next(used: nat, out: seq<byte>) | Stop(outcome: Outcome)

  /** Appends `count` bytes, each one equal to the byte `dist` places before it. */
  function CopyBack(out: seq<byte>, dist: nat, count: nat): (r: seq<byte>)
    requires 1 <= dist <= |out|
    ensures |r| == |out| + count && out <= r
    ensures forall k :: |out| <= k < |r| ==> r[k] == r[k - dist]
    decreases count
  {
    if count == 0 then out else CopyBack(out + [out[|out| - dist]], dist, count - 1)
  }

  /** The upper three bits of a control byte: the length of a back reference, 7 for a long one. */
  function Kind(ctrl: byte): (r: nat)
    ensures r <= 7 && (ctrl >= 32 ==> r >= 1)
  {
    ctrl / 32
  }

  /** The distance, less one, of a back reference. */
  function Offset(ctrl: byte, last: byte): nat {
    ctrl % 32 * 256 + last
  }

  /** Reads one token. */
  function ReadToken(s: seq<byte>, out: seq<byte>, cap: nat): (r: Step)
    requires s != []
    ensures r.Next? ==> 2 <= r.used <= |s| && |out| < |r.out| <= cap && out <= r.out
    ensures r.Stop? ==> !r.outcome.Done?
  {
    var ctrl := s[0] as int;
    if ctrl < 32 then
      var n := ctrl + 1;
      if |out| + n > cap then Stop(TooBig)
      else if n + 1 > |s| then Stop(Overrun)
      else Next(n + 1, out + s[1..n + 1])
    else
      var h := if Kind(s[0]) == 7 then 3 else 2;
      if |s| < h then Stop(Overrun)
      else
        var len := if h == 3 then 7 + s[1] as int else Kind(s[0]);
        var dist := Offset(s[0], s[h - 1]) + 1;
        if |out| + len + 2 > cap then Stop(TooBig)
        else if dist > |out| then Stop(BadRef)
        else Next(h, CopyBack(out, dist, len + 2))
  }

  /** The three tokens, bit by bit, and exactly when each of them is read. */
  lemma TokenLayout(s: seq<byte>, out: seq<byte>, cap: nat)
    requires s != []
    ensures var ctrl, r := s[0] as int, ReadToken(s, out, cap);
            && (ctrl < 32 ==>
                  && (r.Next? <==> |s| >= ctrl + 2 && |out| + ctrl + 1 <= cap)
                  && (r.Next? ==> r.used == ctrl + 2 && r.out == out + s[1..ctrl + 2]))
            && (32 <= ctrl < 224 ==>
                  && (r.Next? <==> |s| >= 2 && ctrl % 32 * 256 + s[1] as int + 1 <= |out| && |out| + ctrl / 32 + 2 <= cap)
                  && (r.Next? ==> r.used == 2 && Copied(out, r.out, ctrl % 32 * 256 + s[1] as int + 1, ctrl / 32 + 2)))
            && (224 <= ctrl ==>
                  && (r.Next? <==> |s| >= 3 && ctrl % 32 * 256 + s[2] as int + 1 <= |out| && |out| + s[1] as int + 9 <= cap)
                  && (r.Next? ==> r.used == 3 && Copied(out, r.out, ctrl % 32 * 256 + s[2] as int + 1, s[1] as int + 9)))
  {
  }

  /** `count` bytes are appended, each equal to the one `dist` places before it. */
  ghost predicate Copied(was: seq<byte>, now: seq<byte>, dist: nat, count: nat) {
    dist <= |was| && |now| == |was| + count && was <= now && forall k :: |was| <= k < |now| ==> now[k] == now[k - dist]
  }

  /** What a stream stands for when `out` has been produced already. */
  function Expand(s: seq<byte>, out: seq<byte>, cap: nat): Outcome
    decreases |s|
  {
    if s == [] then Done(out)
    else match ReadToken(s, out, cap)
      case Next(used, more) => Expand(s[used..], more, cap)
      case Stop(o) => o
  }

  lemma EmptyExpands(cap: nat)
    ensures Expand([], [], cap) == Done([])
  {
  }

  /** Output only grows, and stays within the capacity. */
  lemma {:induction false} ExpandGrows(s: seq<byte>, out: seq<byte>, cap: nat)
    requires |out| <= cap
    ensures var r := Expand(s, out, cap); r.Done? ==> |out| <= |r.data| <= cap && out <= r.data
    decreases |s|
  {
    if s != [] {
      match ReadToken(s, out, cap)
      case Next(used, more) => ExpandGrows(s[used..], more, cap);
      case Stop(o) =>
    }
  }

  /** A token that is complete stays the same token when more bytes follow. */
  lemma ReadTokenAppend(s: seq<byte>, t: seq<byte>, out: seq<byte>, cap: nat)
    requires s != [] && ReadToken(s, out, cap).Next?
    ensures ReadToken(s + t, out, cap) == ReadToken(s, out, cap)
  {
    hide CopyBack;
    hide Kind;
    hide Offset;
    if s[0] < 32 {
      var n := s[0] as int + 1;
      assert (s + t)[1..n + 1] == s[1..n + 1];
    }
  }

  /** A complete stream followed by another one: expand the first, go on with the second. */
  lemma {:induction false} ExpandAppend(s: seq<byte>, t: seq<byte>, out: seq<byte>, cap: nat)
    requires Expand(s, out, cap).Done?
    ensures Expand(s + t, out, cap) == Expand(t, Expand(s, out, cap).data, cap)
    decreases |s|
  {
    if s == [] {
      assert s + t == t;
    } else {
      var step := ReadToken(s, out, cap);
      assert step.Next?;
      ReadTokenAppend(s, t, out, cap);
      assert (s + t)[step.used..] == s[step.used..] + t;
      ExpandAppend(s[step.used..], t, step.out, cap);
    }
  }

  /** A stream of exactly one token. */
  lemma ExpandOne(z: seq<byte>, token: seq<byte>, mid: seq<byte>, out: seq<byte>, cap: nat)
    requires Expand(z, [], cap) == Done(mid)
    requires token != [] && ReadToken(token, mid, cap) == Next(|token|, out)
    ensures Expand(z + token, [], cap) == Done(out)
  {
    ExpandAppend(z, token, [], cap);
    assert token[|token|..] == [];
  }

  /** The literal run that carries input[p..q]. */
  lemma LiteralRunExpands(z: seq<byte>, run: seq<byte>, input: seq<byte>, p: nat, q: nat)
    requires p < q <= |input| && q - p <= MAX_LIT
    requires Expand(z, [], |input|) == Done(input[..p])
    requires |run| == q - p + 1 && run[0] == q - p - 1 && run[1..] == input[p..q]
    ensures Expand(z + run, [], |input|) == Done(input[..q])
  {
    hide Expand;
    assert run[1..|run|] == run[1..];
    assert input[..p] + input[p..q] == input[..q];
    assert ReadToken(run, input[..p], |input|) == Next(|run|, input[..q]);
    hide ReadToken;
    ExpandOne(z, run, input[..p], input[..q], |input|);
  }

  /** The two spellings of a back reference of `len` bytes from distance off + 1. */
  function BackrefToken(off: nat, len: nat): (t: seq<byte>)
    requires off < MAX_OFF && 3 <= len <= MAX_REF
    ensures |t| == if len - 2 < 7 then 2 else 3
  {
    if len - 2 < 7 then [off / 256 + (len - 2) * 32, off % 256]
    else [off / 256 + 7 * 32, len - 2 - 7, off % 256]
  }

  lemma BackrefFields(off: nat, len: nat)
    requires off < MAX_OFF && 3 <= len <= MAX_REF
    ensures var t := BackrefToken(off, len); var c := t[0] as int;
            && 32 <= c && Offset(t[0], t[|t| - 1]) == off
            && |t| == (if Kind(t[0]) == 7 then 3 else 2)
            && len - 2 == (if |t| == 3 then 7 + t[1] as int else Kind(t[0]))
  {
    var hi := off / 256;
    assert hi < 32 && hi * 256 + off % 256 == off;
    var l := if len - 2 < 7 then len - 2 else 7;
    assert (hi + l * 32) / 32 == l && (hi + l * 32) % 32 == hi;
  }

  /** input[p..p+len] repeats the bytes `dist` places before it. */
  ghost predicate Repeats(input: seq<byte>, p: nat, dist: nat, len: nat) {
    && 1 <= dist <= p && p + len <= |input|
    && forall i :: p <= i < p + len ==> input[i] == input[i - dist]
  }

  /** Copying back over an input that repeats itself reproduces the input. */
  lemma {:induction false} CopyBackRepeats(input: seq<byte>, p: nat, dist: nat, len: nat)
    requires Repeats(input, p, dist, len)
    ensures CopyBack(input[..p], dist, len) == input[..p + len]
    decreases len
  {
    if len > 0 {
      assert input[..p] + [input[p - dist]] == input[..p + 1];
      CopyBackRepeats(input, p + 1, dist, len - 1);
    }
  }

  lemma ReadTokenBackref(t: seq<byte>, out: seq<byte>, cap: nat, len: nat, dist: nat)
    requires |t| >= 2 && t[0] >= 32 && |t| == (if Kind(t[0]) == 7 then 3 else 2)
    requires len >= 2 && len - 2 == (if |t| == 3 then 7 + t[1] as int else Kind(t[0]))
    requires dist == Offset(t[0], t[|t| - 1]) + 1 <= |out| && |out| + len <= cap
    ensures ReadToken(t, out, cap) == Next(|t|, CopyBack(out, dist, len))
  {
    hide Kind;
    hide Offset;
    hide CopyBack;
  }

  /** The token of a back reference is read whole, and copies what the input repeats. */
  lemma BackrefRead(input: seq<byte>, p: nat, off: nat, len: nat)
    requires off < MAX_OFF && 3 <= len <= MAX_REF
    requires Repeats(input, p, off + 1, len)
    ensures var t := BackrefToken(off, len);
            t != [] && ReadToken(t, input[..p], |input|) == Next(|t|, input[..p + len])
  {
    assert off + 1 <= p && p + len <= |input|;
    hide *;
    CopyBackRepeats(input, p, off + 1, len);
    BackrefFields(off, len);
    ReadTokenBackref(BackrefToken(off, len), input[..p], |input|, len, off + 1);
  }

  lemma BackrefExpands(z: seq<byte>, input: seq<byte>, p: nat, off: nat, len: nat)
    requires off < MAX_OFF && 3 <= len <= MAX_REF
    requires Repeats(input, p, off + 1, len)
    requires Expand(z, [], |input|) == Done(input[..p])
    ensures Expand(z + BackrefToken(off, len), [], |input|) == Done(input[..p + len])
  {
    BackrefRead(input, p, off, len);
    hide Expand;
    hide BackrefToken;
    hide ReadToken;
    ExpandOne(z, BackrefToken(off, len), input[..p], input[..p + len], |input|);
  }
}
