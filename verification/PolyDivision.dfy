/**
 Long division of polynomials over GF(2), and the shift register that computes the same
 remainder bit by bit. Polynomials are bits, highest power first; the divisor is given
 without its leading one.
 */
module PolyDivision {

  /** Subtracts the divisor, lined up with the leading bit. */
  function Subtract(poly: seq<bool>, m: seq<bool>): (r: seq<bool>)
    requires |m| > |poly|
    ensures |r| == |m|
  {
    seq(|m|, i requires 0 <= i < |m| =>
      if i == 0 then !m[i] else if i <= |poly| then m[i] != poly[i - 1] else m[i])
  }

  /** Long division: the bits that remain. */
  function Remainder(poly: seq<bool>, m: seq<bool>): (r: seq<bool>)
    requires |m| >= |poly|
    ensures |r| == |poly|
    decreases |m|
  {
    if |m| == |poly| then m else Remainder(poly, (if m[0] then Subtract(poly, m) else m)[1..])
  }

  function Falses(n: nat): (r: seq<bool>)
    ensures |r| == n && forall i :: 0 <= i < n ==> !r[i]
  {
    seq(n, _ => false)
  }

  /** The leading bits of m changed by those of r. */
  function AddHead(r: seq<bool>, m: seq<bool>): (s: seq<bool>)
    requires |r| <= |m|
    ensures |s| == |m|
    ensures forall i :: 0 <= i < |m| ==> s[i] == if i < |r| then m[i] != r[i] else m[i]
  {
    seq(|m|, i requires 0 <= i < |m| => if i < |r| then m[i] != r[i] else m[i])
  }

  /** One step of the register: up by one, and the divisor added when a one falls out. */
  function Step(poly: seq<bool>, r: seq<bool>, b: bool): (s: seq<bool>)
    requires |r| == |poly| > 0
    ensures |s| == |r|
    ensures forall i :: 0 <= i < |r| ==> s[i] == ((i + 1 < |r| && r[i + 1]) != (r[0] != b && poly[i]))
  {
    seq(|r|, i requires 0 <= i < |r| => (i + 1 < |r| && r[i + 1]) != (r[0] != b && poly[i]))
  }

  /** The register after a message. */
  function Run(poly: seq<bool>, r: seq<bool>, bits: seq<bool>): (s: seq<bool>)
    requires |r| == |poly| > 0
    ensures |s| == |r|
    decreases |bits|
  {
    if bits == [] then r else Run(poly, Step(poly, r, bits[0]), bits[1..])
  }

  /** One step of the division is one step of the register. */
  lemma DivisionStep(poly: seq<bool>, r: seq<bool>, b: bool, rest: seq<bool>)
    requires |r| == |poly| > 0
    ensures var m := AddHead(r, [b] + rest + Falses(|r|));
            (if m[0] then Subtract(poly, m) else m)[1..] == AddHead(Step(poly, r, b), rest + Falses(|r|))
  {
    var w := [b] + rest + Falses(|r|);
    var m := AddHead(r, w);
    var n := (if m[0] then Subtract(poly, m) else m)[1..];
    var q := AddHead(Step(poly, r, b), w[1..]);
    assert w[1..] == rest + Falses(|r|);
    forall i | 0 <= i < |n| ensures n[i] == q[i] {
      assert w[i + 1] == w[1..][i];
    }
  }

  /** The register holds the remainder of its start value and the message, times x to its width. */
  lemma {:induction false} RunIsRemainder(poly: seq<bool>, r: seq<bool>, bits: seq<bool>)
    requires |r| == |poly| > 0
    ensures Run(poly, r, bits) == Remainder(poly, AddHead(r, bits + Falses(|r|)))
    decreases |bits|
  {
    if bits == [] {
      assert AddHead(r, bits + Falses(|r|)) == r;
    } else {
      var b, rest := bits[0], bits[1..];
      assert bits + Falses(|r|) == [b] + rest + Falses(|r|);
      DivisionStep(poly, r, b, rest);
      RunIsRemainder(poly, Step(poly, r, b), rest);
    }
  }

  lemma {:induction false} RunAppend(poly: seq<bool>, r: seq<bool>, a: seq<bool>, b: seq<bool>)
    requires |r| == |poly| > 0
    ensures Run(poly, r, a + b) == Run(poly, Run(poly, r, a), b)
    decreases |a|
  {
    if a == [] {
      assert a + b == b;
    } else {
      assert (a + b)[1..] == a[1..] + b;
      RunAppend(poly, Step(poly, r, a[0]), a[1..], b);
    }
  }
}
