/** lzf_decompress: the copy loops that replay a stream into a buffer. */
module Decompressor {
  import opened Bytes
  import opened LzfFormat

  /** The literal loop: `*op++ = *ip++` while the counter lasts. */
  method CopyLiterals(s: seq<byte>, ip: nat, out: array<byte>, base: nat, op: nat, count: nat)
    returns (op': nat)
    requires 1 <= count && ip + count <= |s|
    requires base <= op && op + count <= out.Length
    modifies out
    ensures op' == op + count
    ensures out[base..op'] == old(out[base..op]) + s[ip..ip + count]
    ensures forall i :: 0 <= i < out.Length && !(op <= i < op') ==> out[i] == old(out[i])
  {
    op' := op;
    while op' < op + count
      invariant op <= op' <= op + count
      invariant forall i :: op <= i < op' ==> out[i] == s[ip + (i - op)]
      invariant forall i :: 0 <= i < out.Length && !(op <= i < op') ==> out[i] == old(out[i])
    {
      out[op'] := s[ip + (op' - op)];
      op' := op' + 1;
    }
  }

  /** The back reference loop; source and destination may overlap. */
  method CopyReference(out: array<byte>, base: nat, op: nat, dist: nat, count: nat) returns (op': nat)
    requires base <= op && 1 <= dist <= op - base
    requires op + count <= out.Length
    modifies out
    ensures op' == op + count
    ensures out[base..op'] == CopyBack(old(out[base..op]), dist, count)
    ensures forall i :: 0 <= i < out.Length && !(op <= i < op') ==> out[i] == old(out[i])
  {
    op' := op;
    ghost var was := out[base..op];
    while op' < op + count
      invariant op <= op' <= op + count
      invariant CopyBack(out[base..op'], dist, op + count - op') == CopyBack(was, dist, count)
      invariant forall i :: 0 <= i < out.Length && !(op <= i < op') ==> out[i] == old(out[i])
    {
      ghost var sofar := out[base..op'];
      out[op'] := out[op' - dist];
      assert out[base..op' + 1] == sofar + [sofar[|sofar| - dist]];
      op' := op' + 1;
    }
  }

  method ReplayBackref(s: seq<byte>, ip: nat, out: array<byte>, base: nat, op: nat, outLen: nat)
    returns (ok: bool, ip': nat, op': nat)
    requires ip < |s| && base <= op <= base + outLen <= out.Length && s[ip] >= 32
    requires ReadToken(s[ip..], out[base..op], outLen) != Stop(Overrun)
    modifies out
    ensures var step := ReadToken(s[ip..], old(out[base..op]), outLen);
            && ok == step.Next?
            && (ok ==> ip' == ip + step.used <= |s| && op <= op' <= base + outLen && out[base..op'] == step.out)
    ensures forall i :: 0 <= i < out.Length && !(op <= i < base + outLen) ==> out[i] == old(out[i])
  {
    var ctrl := s[ip] as int;
    ok, ip', op' := false, ip + 1, op;
    var len := ctrl / 32;
    var dist := ctrl % 32 * 256 + 1;
    if len == 7 {
      len := len + s[ip'] as int;
      ip' := ip' + 1;
    }
    dist := dist + s[ip'] as int;
    ip' := ip' + 1;
    if op + len + 2 > base + outLen { return; }
    if dist > op - base { return; }
    op' := CopyReference(out, base, op, dist, len + 2);
    ok := true;
  }

  /** Reads one token at ip and replays it at op; not ok when it does not fit or points too far back. */
  method ReplayToken(s: seq<byte>, ip: nat, out: array<byte>, base: nat, op: nat, outLen: nat)
    returns (ok: bool, ip': nat, op': nat)
    requires ip < |s| && base <= op <= base + outLen <= out.Length
    requires ReadToken(s[ip..], out[base..op], outLen) != Stop(Overrun)
    modifies out
    ensures var step := ReadToken(s[ip..], old(out[base..op]), outLen);
            && ok == step.Next?
            && (ok ==> ip' == ip + step.used <= |s| && op <= op' <= base + outLen && out[base..op'] == step.out)
    ensures forall i :: 0 <= i < out.Length && !(op <= i < base + outLen) ==> out[i] == old(out[i])
  {
    var ctrl := s[ip] as int;
    if ctrl < 32 {
      ok, ip', op' := false, ip + 1, op;
      ctrl := ctrl + 1;
      if op + ctrl > base + outLen { return; }
      assert s[ip..][1..ctrl + 1] == s[ip'..ip' + ctrl];
      op' := CopyLiterals(s, ip', out, base, op, ctrl);
      ip' := ip' + ctrl;
      ok := true;
    } else {
      ok, ip', op' := ReplayBackref(s, ip, out, base, op, outLen);
    }
  }

  /**
   Replays the stream s. The source reads past a truncated stream (CHECK_INPUT is 0), so
   truncated and empty streams are outside its contract.
   */
  method LzfDecompress(s: seq<byte>, out: array<byte>, base: nat, outLen: nat) returns (r: nat)
    requires s != [] && base + outLen <= out.Length
    requires Expand(s, [], outLen) != Overrun
    modifies out
    ensures var e := Expand(s, [], outLen);
            && r == (if e.Done? then |e.data| else 0)
            && (e.Done? ==> r <= outLen && out[base..base + r] == e.data)
    ensures forall i :: 0 <= i < out.Length && !(base <= i < base + outLen) ==> out[i] == old(out[i])
  {
    hide ReadToken;
    var ip: nat, op: nat := 0, base;
    assert s[0..] == s && out[base..base] == [];
    while true
      invariant 0 <= ip < |s| && base <= op <= base + outLen
      invariant Expand(s[ip..], out[base..op], outLen) == Expand(s, [], outLen)
      invariant forall i :: 0 <= i < out.Length && !(base <= i < base + outLen) ==> out[i] == old(out[i])
      decreases |s| - ip
    {
      ghost var rest := s[ip..];
      var ok, ip', op' := ReplayToken(s, ip, out, base, op, outLen);
      if !ok { return 0; }
      assert rest[ip' - ip..] == s[ip'..];
      ip, op := ip', op';
      if ip >= |s| { break; }
    }
    r := op - base;
  }
}
