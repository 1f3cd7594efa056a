/**
 trace_rsp_stream: cutting the traffic of a GDB connection into packets and
 acknowledgements, with a carry for what is incomplete.
 */
module RspTrace {

  /** What one step of the scan takes off the front. */
  datatype Piece = Packet(text: string) | Ack(c: char) | Noise(c: char)

  /** Position of the first '#' at or behind `from`, |s| when there is none. */
  function FindHash(s: string, from: nat): (h: nat)
    requires from <= |s|
    ensures from <= h <= |s| && (h < |s| ==> s[h] == '#')
    ensures forall i :: from <= i < h ==> s[i] != '#'
    decreases |s| - from
  {
    if from == |s| || s[from] == '#' then from else FindHash(s, from + 1)
  }

  /** Length of the piece at the front: 0 for an incomplete packet. */
  function Width(s: string): (w: nat)
    requires s != ""
    ensures w <= |s|
  {
    if s[0] != '$' then 1
    else
      var h := FindHash(s, 1);
      if h + 2 < |s| then h + 3 else 0
  }

  function PieceOf(s: string): Piece
    requires s != ""
  {
    if s[0] == '$' then Packet(s) else if s[0] == '+' || s[0] == '-' then Ack(s[0]) else Noise(s[0])
  }

  datatype Scanned = Scanned(pieces: seq<Piece>, carry: string)

  /** The whole scan of a buffer: its pieces, and what has to wait for more bytes. */
  function Scan(s: string): Scanned
    decreases |s|
  {
    if s == "" || Width(s) == 0 then Scanned([], s)
    else
      var rest := Scan(s[Width(s)..]);
      Scanned([PieceOf(s[..Width(s)])] + rest.pieces, rest.carry)
  }

  function Text(p: Piece): string {
    match p
    case Packet(t) => t
    case Ack(c) => [c]
    case Noise(c) => [c]
  }

  function Flatten(pieces: seq<Piece>): string {
    if pieces == [] then "" else Text(pieces[0]) + Flatten(pieces[1..])
  }

  /** The lines that are printed: packets and acknowledgements, not noise. */
  function Lines(pieces: seq<Piece>): seq<string> {
    if pieces == [] then []
    else (if pieces[0].Noise? then [] else [Text(pieces[0])]) + Lines(pieces[1..])
  }

  /** Printed, skipped and carried bytes are the input, in order. */
  lemma {:induction false} ScanPartitions(s: string)
    ensures Flatten(Scan(s).pieces) + Scan(s).carry == s
    decreases |s|
  {
    hide *;
    if s == "" || Width(s) == 0 {
      ScanStops(s);
    } else {
      var w := Width(s);
      ScanPartitions(s[w..]);
      ScanCons(s);
      FlattenCons(PieceOf(s[..w]), Scan(s[w..]).pieces);
      PieceText(s);
      assert s == s[..w] + s[w..];
    }
  }

  lemma ScanStops(s: string)
    requires s == "" || Width(s) == 0
    ensures Scan(s) == Scanned([], s) && Flatten([]) == ""
  {
    hide Width;
  }

  lemma FlattenCons(p: Piece, q: seq<Piece>)
    ensures Flatten([p] + q) == Text(p) + Flatten(q)
  {
    hide Text;
    assert ([p] + q)[1..] == q;
  }

  /** The carry is empty, or a packet without two characters behind its first '#'. */
  lemma {:induction false} CarryIsIncomplete(s: string)
    ensures var c := Scan(s).carry;
            c == "" || (c[0] == '$' && Width(c) == 0 && forall i :: 1 <= i < |c| - 2 ==> c[i] != '#')
    decreases |s|
  {
    if s != "" && Width(s) > 0 { CarryIsIncomplete(s[Width(s)..]); }
  }

  /** A packet runs from '$' to two bytes behind the next '#'; acknowledgements are '+' and '-'. */
  predicate WellFormed(p: Piece) {
    match p
    case Packet(t) => |t| >= 4 && t[0] == '$' && t[|t| - 3] == '#' && forall i :: 1 <= i < |t| - 3 ==> t[i] != '#'
    case Ack(c) => c == '+' || c == '-'
    case Noise(c) => c != '$' && c != '+' && c != '-'
  }

  lemma {:induction false} PiecesWellFormed(s: string)
    ensures forall p :: p in Scan(s).pieces ==> WellFormed(p)
    decreases |s|
  {
    if s != "" && Width(s) > 0 {
      var w := Width(s);
      PiecesWellFormed(s[w..]);
      FrontWellFormed(s);
    }
  }

  lemma FrontWellFormed(s: string)
    requires s != "" && Width(s) > 0
    ensures WellFormed(PieceOf(s[..Width(s)]))
  {
  }

  /** Whatever is sent piece by piece is cut into the same pieces. */
  lemma {:induction false} ScanReads(pieces: seq<Piece>)
    requires forall p :: p in pieces ==> WellFormed(p)
    ensures Scan(Flatten(pieces)) == Scanned(pieces, "")
    decreases |pieces|
  {
    hide *;
    if pieces == [] {
      ScanStops("");
    } else {
      var p, rest := pieces[0], Flatten(pieces[1..]);
      assert pieces == [p] + pieces[1..];
      FlattenCons(p, pieces[1..]);
      FrontReads(p, rest);
      ScanReads(pieces[1..]);
      ScanCons(Flatten(pieces));
    }
  }

  lemma FrontReads(p: Piece, rest: string)
    requires WellFormed(p)
    ensures var s, w := Text(p) + rest, |Text(p)|;
            s != "" && Width(s) == w > 0 && PieceOf(s[..w]) == p && s[w..] == rest
  {
    var s := Text(p) + rest;
    if p.Packet? {
      var n := |p.text| - 3;
      assert s[n] == '#' && forall i :: 1 <= i < n ==> s[i] != '#';
      assert FindHash(s, 1) == n;
      assert s[..n + 3] == p.text;
    }
  }

  /** All pieces but noise are printed, in order. */
  lemma {:induction false} LinesAreAll(pieces: seq<Piece>)
    ensures (forall p :: p in pieces ==> p.Noise?) ==> Lines(pieces) == []
    ensures (forall p :: p in pieces ==> !p.Noise?) ==>
              |Lines(pieces)| == |pieces| && forall i :: 0 <= i < |pieces| ==> Lines(pieces)[i] == Text(pieces[i])
    decreases |pieces|
  {
    hide Text;
    if pieces != [] {
      LinesAreAll(pieces[1..]);
      assert pieces[0] in pieces && forall p :: p in pieces[1..] ==> p in pieces;
    }
  }

  lemma WidthStays(a: string, b: string)
    requires a != "" && Width(a) > 0
    ensures Width(a + b) == Width(a)
  {
    if a[0] == '$' {
      var h := FindHash(a, 1);
      assert (a + b)[h] == '#';
    }
  }

  /** Scanning a, then its carry together with b, is scanning a + b. */
  lemma {:induction false} ScanAppend(a: string, b: string)
    ensures var x := Scan(a); var y := Scan(x.carry + b);
            Scan(a + b) == Scanned(x.pieces + y.pieces, y.carry)
    decreases |a|
  {
    hide Width;
    hide PieceOf;
    if a == "" {
      assert a + b == b;
    } else if Width(a) == 0 {
      assert Scan(a) == Scanned([], a);
    } else {
      var w := Width(a);
      WidthStays(a, b);
      var p := PieceOf(a[..w]);
      assert (a + b)[..w] == a[..w] && (a + b)[w..] == a[w..] + b;
      ScanAppend(a[w..], b);
      ScanCons(a);
      ScanCons(a + b);
      hide Scan;
      var rest := Scan(a[w..]);
      var y := Scan(rest.carry + b);
      assert [p] + (rest.pieces + y.pieces) == [p] + rest.pieces + y.pieces;
    }
  }

  lemma {:induction false} LinesAppend(p: seq<Piece>, q: seq<Piece>)
    ensures Lines(p + q) == Lines(p) + Lines(q)
    decreases |p|
  {
    if p == [] {
      assert p + q == q;
    } else {
      assert (p + q)[1..] == p[1..] + q;
      LinesAppend(p[1..], q);
    }
  }

  /** The first line that a scan prints, if its first piece is printed at all. */
  lemma ScanFront(s: string)
    requires s != ""
    ensures Width(s) > 0 ==>
              var rest := Scan(s[Width(s)..]);
              && Scan(s).carry == rest.carry
              && Lines(Scan(s).pieces) ==
                 (if s[0] == '$' || s[0] == '+' || s[0] == '-' then [s[..Width(s)]] else []) + Lines(rest.pieces)
    ensures Width(s) == 0 ==> Scan(s) == Scanned([], s)
  {
    hide Width;
    if Width(s) > 0 {
      var w := Width(s);
      var p, rest := PieceOf(s[..w]), Scan(s[w..]);
      assert s[..w][0] == s[0];
      ScanCons(s);
      LinesCons(p, rest.pieces);
      assert Text(p) == s[..w] by { PieceText(s); }
    }
  }

  lemma ScanCons(s: string)
    requires s != "" && Width(s) > 0
    ensures var rest := Scan(s[Width(s)..]);
            Scan(s) == Scanned([PieceOf(s[..Width(s)])] + rest.pieces, rest.carry)
  {
  }

  lemma LinesCons(p: Piece, q: seq<Piece>)
    ensures Lines([p] + q) == (if p.Noise? then [] else [Text(p)]) + Lines(q)
  {
    assert ([p] + q)[1..] == q;
  }

  /** The text of the front piece is the bytes it covers. */
  lemma PieceText(s: string)
    requires s != "" && Width(s) > 0
    ensures Text(PieceOf(s[..Width(s)])) == s[..Width(s)]
  {
  }

  function Concat(chunks: seq<string>): string {
    if chunks == [] then "" else Concat(chunks[..|chunks| - 1]) + chunks[|chunks| - 1]
  }

  lemma ConcatSnoc(chunks: seq<string>, i: nat)
    requires i < |chunks|
    ensures Concat(chunks[..i + 1]) == Concat(chunks[..i]) + chunks[i]
  {
    assert chunks[..i + 1][..i] == chunks[..i];
  }

  /** Tracing one more chunk is tracing the longer stream. */
  lemma OneMoreChunk(start: string, chunks: seq<string>, i: nat, carry: string, before: seq<string>, now: seq<string>)
    requires i < |chunks|
    requires var r := Scan(start + Concat(chunks[..i])); carry == r.carry && now == before + Lines(r.pieces)
    ensures var r, y := Scan(start + Concat(chunks[..i + 1])), Scan(carry + chunks[i]);
            r.carry == y.carry && before + Lines(r.pieces) == now + Lines(y.pieces)
  {
    hide Scan;
    hide Lines;
    hide Concat;
    var sofar := start + Concat(chunks[..i]);
    var x, y := Scan(sofar), Scan(carry + chunks[i]);
    ScanAppend(sofar, chunks[i]);
    LinesAppend(x.pieces, y.pieces);
    ConcatSnoc(chunks, i);
    assert sofar + chunks[i] == start + (Concat(chunks[..i]) + chunks[i]);
    assert before + (Lines(x.pieces) + Lines(y.pieces)) == now + Lines(y.pieces);
  }

  class Tracer {
    var carry: string
    var printed: seq<string>

    /** The carry holds nothing that could be printed already. */
    ghost predicate Valid()
      reads this
    {
      Scan(carry) == Scanned([], carry)
    }

    constructor ()
      ensures Valid() && carry == "" && printed == []
    {
      carry, printed := "", [];
    }

    /** One turn of the loop: over one piece, or no more when a packet is incomplete. */
    method Step(pos: nat) returns (pos': nat, more: bool)
      requires pos < |carry|
      modifies `printed
      ensures pos <= pos' <= |carry| && (more ==> pos < pos')
      ensures var a, b := Scan(carry[pos..]), Scan(carry[pos'..]);
              if more then a.carry == b.carry && old(printed) + Lines(a.pieces) == printed + Lines(b.pieces)
              else pos' == pos && printed == old(printed) && a == Scanned([], carry[pos..])
    {
      hide Scan;
      hide Width;
      hide Lines;
      ghost var rest := carry[pos..];
      ScanFront(rest);
      if carry[pos] == '$' {
        var hash := Find(pos + 1);
        PacketWidth(carry, pos, hash);
        if hash == |carry| { return pos, false; }
        if hash + 2 >= |carry| { return pos, false; }
        printed := printed + [carry[pos..hash + 3]];
        assert rest[..hash + 3 - pos] == carry[pos..hash + 3] && rest[hash + 3 - pos..] == carry[hash + 3..];
        return hash + 3, true;
      }
      OtherWidth(rest);
      if carry[pos] == '+' || carry[pos] == '-' { printed := printed + [[carry[pos]]]; }
      assert rest[..1] == [carry[pos]] && rest[1..] == carry[pos + 1..];
      return pos + 1, true;
    }

    /** trace_rsp_stream on one chunk. */
    method Trace(data: string, verbose: bool)
      requires Valid()
      modifies this
      ensures Valid()
      ensures !verbose ==> carry == old(carry) && printed == old(printed)
      ensures verbose ==> var r := Scan(old(carry) + data);
                          carry == r.carry && printed == old(printed) + Lines(r.pieces)
    {
      if !verbose { return; }
      carry := carry + data;
      var pos := 0;
      assert carry[0..] == carry;
      ghost var whole := Scan(carry);
      CarryIsIncomplete(carry);
      hide Scan;
      hide Width;
      hide Lines;
      var more := true;
      while pos < |carry| && more
        invariant 0 <= pos <= |carry| && carry == old(carry) + data
        invariant whole.carry == Scan(carry[pos..]).carry
        invariant old(printed) + Lines(whole.pieces) == printed + Lines(Scan(carry[pos..]).pieces)
        invariant !more ==> Scan(carry[pos..]) == Scanned([], carry[pos..])
        decreases |carry| - pos, more
      {
        pos, more := Step(pos);
      }
      ScanNothing();
      assert pos == |carry| ==> carry[pos..] == "";
      if pos > 0 { carry := carry[pos..]; }
    }

    /** carry.find('#', from). */
    method Find(from: nat) returns (h: nat)
      requires from <= |carry|
      ensures h == FindHash(carry, from)
    {
      h := from;
      while h < |carry| && carry[h] != '#'
        invariant from <= h <= |carry| && FindHash(carry, h) == FindHash(carry, from)
      {
        h := h + 1;
      }
    }

    /** Any split into chunks prints the same lines and leaves the same carry as one call on everything. */
    method TraceAll(chunks: seq<string>)
      requires Valid()
      modifies this
      ensures Valid()
      ensures var r := Scan(old(carry) + Concat(chunks));
              carry == r.carry && printed == old(printed) + Lines(r.pieces)
    {
      assert old(carry) + Concat(chunks[..0]) == carry;
      ScanNothing();
      hide Concat;
      hide Scan;
      hide Lines;
      for i := 0 to |chunks|
        invariant Valid()
        invariant var r := Scan(old(carry) + Concat(chunks[..i]));
                  carry == r.carry && printed == old(printed) + Lines(r.pieces)
      {
        OneMoreChunk(old(carry), chunks, i, carry, old(printed), printed);
        Trace(chunks[i], true);
      }
      assert chunks[..|chunks|] == chunks;
    }
  }

  lemma ScanNothing()
    ensures Scan("") == Scanned([], "") && Lines([]) == []
  {
  }

  lemma OtherWidth(s: string)
    requires s != "" && s[0] != '$'
    ensures Width(s) == 1
  {
  }

  /** The first '#' behind pos decides the width of the packet at pos. */
  lemma PacketWidth(s: string, pos: nat, h: nat)
    requires pos < |s| && s[pos] == '$' && h == FindHash(s, pos + 1)
    ensures Width(s[pos..]) == if h + 2 < |s| then h + 3 - pos else 0
  {
    var r := s[pos..];
    var k := FindHash(r, 1);
    assert forall i :: 1 <= i < k ==> s[pos + i] == r[i];
    assert forall i :: pos + 1 <= i < h ==> s[i] == r[i - pos];
    assert k + pos == h;
  }
}
