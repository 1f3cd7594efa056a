/**
 Which stream the compressor writes: its state machine over the input, without an output
 buffer, and the room that it asks for on the way.
 */
module LzfParse {
  import opened Bytes
  import opened LzfFormat

  const HSIZE := 1024

  type TableIndex = i: nat | i < HSIZE witness 0

  /** A hash function into the table. */
  type Hash = nat -> TableIndex

  function Frst(a: byte, b: byte): nat { a as int * 256 + b as int }

  function Rolled(hval: nat, c: byte): nat { (hval * 256 + c as int) % 0x1_0000_0000 }

  /** IDX, the hash function of the source; any other one into the table does as well. */
  function Idx(hval: nat): TableIndex {
    (hval / 16384 - hval * 5) % HSIZE
  }

  const IDX: Hash := Idx

  /** The hash table's candidate is usable: close enough, before ip, and its first three bytes agree. */
  predicate Usable(input: seq<byte>, ip: nat, from: int)
    requires ip + 2 < |input| && from < |input|
  {
    && 0 < from < ip && ip - from - 1 < MAX_OFF && ip + 4 < |input|
    && input[from] == input[ip] && input[from + 1] == input[ip + 1] && input[from + 2] == input[ip + 2]
  }

  /** Where a match ends at the latest; the unrolled part of the scan may go past the limit of 17 or 18. */
  function MatchCap(n: nat, ip: nat): (cap: nat)
    requires ip + 4 < n
    ensures 3 <= cap <= MAX_REF && ip + cap <= n && (cap < MAX_REF ==> ip + cap + 2 >= n)
  {
    var maxlen := if n - ip - 2 > MAX_REF then MAX_REF else n - ip - 2;
    if 17 <= maxlen <= 18 then 19 else maxlen
  }

  /** The first place from len on where the input does not repeat, or the cap. */
  function Extend(input: seq<byte>, from: nat, ip: nat, len: nat, cap: nat): (end: nat)
    requires from < ip && len <= cap && ip + cap <= |input|
    ensures len <= end <= cap
    ensures Repeats(input, ip, ip - from, len) ==> Repeats(input, ip, ip - from, end)
    ensures end == cap || (ip + end < |input| && input[from + end] != input[ip + end])
    decreases cap - len
  {
    if len < cap && input[from + len] == input[ip + len] then Extend(input, from, ip, len + 1, cap) else len
  }

  function MatchLen(input: seq<byte>, from: nat, ip: nat): (len: nat)
    requires from < ip && ip + 4 < |input|
    ensures 3 <= len <= MAX_REF && ip + len <= |input|
    ensures len == MatchCap(|input|, ip) || (ip + len < |input| && input[from + len] != input[ip + len])
  {
    Extend(input, from, ip, 3, MatchCap(|input|, ip))
  }

  /** The match length is the only one with no earlier difference and no later possible end. */
  lemma MatchLenUnique(input: seq<byte>, from: nat, ip: nat, len: nat)
    requires from < ip && ip + 4 < |input| && 3 <= len <= MatchCap(|input|, ip)
    requires Repeats(input, ip, ip - from, len)
    requires len == MatchCap(|input|, ip) || input[from + len] != input[ip + len]
    ensures len == MatchLen(input, from, ip)
  {
    hide Extend;
    hide MatchCap;
    RepeatsLess(input, ip, ip - from, len, 3);
  }

  lemma RepeatsLess(input: seq<byte>, p: nat, dist: nat, len: nat, less: nat)
    requires Repeats(input, p, dist, len) && less <= len
    ensures Repeats(input, p, dist, less)
  {
  }

  lemma RepeatsThree(input: seq<byte>, from: nat, ip: nat)
    requires from < ip && ip + 3 <= |input|
    requires input[from] == input[ip] && input[from + 1] == input[ip + 1] && input[from + 2] == input[ip + 2]
    ensures Repeats(input, ip, ip - from, 3)
  {
  }

  lemma MatchRepeats(input: seq<byte>, from: nat, ip: nat)
    requires from < ip && ip + 4 < |input| && Usable(input, ip, from)
    ensures Repeats(input, ip, ip - from, MatchLen(input, from, ip))
  {
    RepeatsThree(input, from, ip);
    hide Extend;
    hide Repeats;
  }

  /** The token of a run of lit literals that ends at ip; nothing when there are none. */
  function Run(input: seq<byte>, ip: nat, lit: nat): (t: seq<byte>)
    requires lit <= MAX_LIT && lit <= ip <= |input|
    ensures |t| == if lit == 0 then 0 else lit + 1
  {
    if lit == 0 then [] else [lit - 1] + input[ip - lit..ip]
  }

  /** What is read, what is written, and how many literals wait to be written. */
  datatype Cut = Cut(ip: nat, done: seq<byte>, lit: nat)

  ghost predicate ValidCut(input: seq<byte>, c: Cut) { c.lit < MAX_LIT && c.lit <= c.ip <= |input| }

  /** One literal; a run of 32 is written. */
  function Literal(input: seq<byte>, c: Cut): (d: Cut)
    requires ValidCut(input, c) && c.ip < |input|
    ensures ValidCut(input, d) && d.ip == c.ip + 1
  {
    if c.lit + 1 == MAX_LIT then Cut(c.ip + 1, c.done + Run(input, c.ip + 1, MAX_LIT), 0)
    else Cut(c.ip + 1, c.done, c.lit + 1)
  }

  /** The waiting literals, then a back reference of the longest match. */
  function Reference(input: seq<byte>, c: Cut, from: nat): (d: Cut)
    requires ValidCut(input, c) && from < c.ip && c.ip + 4 < |input| && Usable(input, c.ip, from)
    ensures ValidCut(input, d) && c.ip + 3 <= d.ip && d.lit == 0
  {
    var len := MatchLen(input, from, c.ip);
    Cut(c.ip + len, c.done + Run(input, c.ip, c.lit) + BackrefToken(c.ip - from - 1, len), 0)
  }

  function Emit(input: seq<byte>, c: Cut, from: int): (d: Cut)
    requires ValidCut(input, c) && c.ip + 2 < |input| && from < |input|
    ensures ValidCut(input, d) && c.ip < d.ip
  {
    if Usable(input, c.ip, from) then Reference(input, c, from) else Literal(input, c)
  }

  /** Room in the output for which this step does not give up. */
  function Need(input: seq<byte>, c: Cut, from: int): nat
    requires ValidCut(input, c) && c.ip + 2 < |input| && from < |input|
  {
    if Usable(input, c.ip, from) then |c.done| + |Run(input, c.ip, c.lit)| + 5 else |c.done| + c.lit + 2
  }

  datatype State = State(cut: Cut, hval: nat, htab: seq<int>)

  ghost predicate Valid(input: seq<byte>, s: State) {
    && ValidCut(input, s.cut) && |s.htab| == HSIZE
    && forall i :: 0 <= i < HSIZE ==> -1 <= s.htab[i] < |input|
  }

  /** The hash value at the place to read next, and its slot. */
  function Hashed(input: seq<byte>, s: State): nat
    requires Valid(input, s) && s.cut.ip + 2 < |input|
  {
    Rolled(s.hval, input[s.cut.ip + 2])
  }

  function Slot(input: seq<byte>, idx: Hash, s: State): (slot: nat)
    requires Valid(input, s) && s.cut.ip + 2 < |input|
    ensures slot < |s.htab|
  {
    idx(Hashed(input, s))
  }

  function Candidate(input: seq<byte>, idx: Hash, s: State): (from: int)
    requires Valid(input, s) && s.cut.ip + 2 < |input|
    ensures from < |input|
  {
    s.htab[Slot(input, idx, s)]
  }

  /** The table with the place to read next entered. */
  function Entered(input: seq<byte>, idx: Hash, s: State): (htab: seq<int>)
    requires Valid(input, s) && s.cut.ip + 2 < |input|
    ensures |htab| == HSIZE && forall i :: 0 <= i < HSIZE ==> -1 <= htab[i] < |input|
  {
    s.htab[Slot(input, idx, s) := s.cut.ip]
  }

  /** The hash value and the table after a match that ends at e: its last two places are entered. */
  function Rehashed(input: seq<byte>, idx: Hash, htab: seq<int>, e: nat): (r: (nat, seq<int>))
    requires 2 <= e && e + 2 < |input| && |htab| == HSIZE
    requires forall i :: 0 <= i < HSIZE ==> -1 <= htab[i] < |input|
    ensures |r.1| == HSIZE && forall i :: 0 <= i < HSIZE ==> -1 <= r.1[i] < |input|
  {
    var h0 := Rolled(Frst(input[e - 2], input[e - 1]), input[e]);
    var h1 := Rolled(h0, input[e + 1]);
    (h1, htab[idx(h0) := e - 2][idx(h1) := e - 1])
  }

  /** One turn of the main loop, with the hash table's updates. */
  function Turn(input: seq<byte>, idx: Hash, s: State): (t: State)
    requires Valid(input, s) && s.cut.ip + 2 < |input|
    ensures Valid(input, t) && s.cut.ip < t.cut.ip
  {
    var ip := s.cut.ip;
    var from := Candidate(input, idx, s);
    var htab := Entered(input, idx, s);
    var cut := Emit(input, s.cut, from);
    if !Usable(input, ip, from) || cut.ip + 2 >= |input| then State(cut, Hashed(input, s), htab)
    else
      var r := Rehashed(input, idx, htab, cut.ip);
      State(cut, r.0, r.1)
  }

  /** The last bytes as literals, then the end of the run. */
  function Tail(input: seq<byte>, c: Cut): seq<byte>
    requires ValidCut(input, c)
    decreases |input| - c.ip
  {
    if c.ip == |input| then c.done + Run(input, c.ip, c.lit) else Tail(input, Literal(input, c))
  }

  /** The stream that is written from a state on. */
  function Packed(input: seq<byte>, idx: Hash, s: State): seq<byte>
    requires Valid(input, s)
    decreases |input| - s.cut.ip
  {
    if s.cut.ip + 2 < |input| then Packed(input, idx, Turn(input, idx, s)) else Tail(input, s.cut)
  }

  /** No step gives up with room bytes of output. */
  predicate RoomFor(input: seq<byte>, idx: Hash, s: State, room: nat)
    requires Valid(input, s)
    decreases |input| - s.cut.ip
  {
    if s.cut.ip + 2 < |input| then
      Need(input, s.cut, Candidate(input, idx, s)) <= room && RoomFor(input, idx, Turn(input, idx, s), room)
    else |s.cut.done| + s.cut.lit + 4 <= room
  }

  function Start(input: seq<byte>): (s: State)
    requires |input| >= 2
    ensures Valid(input, s)
  {
    State(Cut(0, [], 0), Frst(input[0], input[1]), seq(HSIZE, _ => -1))
  }

  /** The stream of a whole input, and whether it is written into so much room. */
  function Stream(input: seq<byte>, idx: Hash): seq<byte>
    requires |input| >= 2
  {
    Packed(input, idx, Start(input))
  }

  predicate Fits(input: seq<byte>, idx: Hash, room: nat)
    requires |input| >= 2
  {
    RoomFor(input, idx, Start(input), room)
  }
}
