/** Machine words as their bits, bit 0 being the least significant, with C's bitwise operators. */
module Bits {

  const QWORD_WIDTH: nat := 64

  /** A word of some width. */
  type Bitwise = seq<bool>

  type Qword = w: Bitwise | |w| == QWORD_WIDTH witness Filled(QWORD_WIDTH, false)

  function Filled(width: nat, b: bool): (w: Bitwise)
    ensures |w| == width && forall i :: 0 <= i < width ==> w[i] == b
  {
    seq(width, _ => b)
  }

  /** a | b */
  function Or(a: Bitwise, b: Bitwise): (w: Bitwise)
    requires |a| == |b|
    ensures |w| == |a| && forall i :: 0 <= i < |w| ==> (w[i] <==> a[i] || b[i])
  {
    seq(|a|, i requires 0 <= i < |a| => a[i] || b[i])
  }

  /** a & b */
  function And(a: Bitwise, b: Bitwise): (w: Bitwise)
    requires |a| == |b|
    ensures |w| == |a| && forall i :: 0 <= i < |w| ==> (w[i] <==> a[i] && b[i])
  {
    seq(|a|, i requires 0 <= i < |a| => a[i] && b[i])
  }

  /** ~a */
  function Not(a: Bitwise): (w: Bitwise)
    ensures |w| == |a| && forall i :: 0 <= i < |w| ==> (w[i] <==> !a[i])
  {
    seq(|a|, i requires 0 <= i < |a| => !a[i])
  }

  /** a >> k */
  function Shr(a: Bitwise, k: nat): (w: Bitwise)
    ensures |w| == |a| && forall i :: 0 <= i < |w| ==> (w[i] <==> i + k < |a| && a[i + k])
  {
    seq(|a|, i requires 0 <= i < |a| => i + k < |a| && a[i + k])
  }

  /** a << k */
  function Shl(a: Bitwise, k: nat): (w: Bitwise)
    ensures |w| == |a| && forall i :: 0 <= i < |w| ==> (w[i] <==> i >= k && a[i - k])
  {
    seq(|a|, i requires 0 <= i < |a| => i >= k && a[i - k])
  }

  /** The word whose n lowest bits are set. */
  function Mask(width: nat, n: nat): (w: Bitwise)
    requires n <= width
    ensures |w| == width && forall i :: 0 <= i < width ==> (w[i] <==> i < n)
  {
    seq(width, i => i < n)
  }

  predicate IsZero(w: Bitwise) {
    forall i :: 0 <= i < |w| ==> !w[i]
  }

  /** The number of zero bits below the lowest set bit; the width when there is none. */
  function Ctz(w: Bitwise): (n: nat)
    ensures n <= |w|
    ensures forall i :: 0 <= i < n ==> !w[i]
    ensures n < |w| ==> w[n]
  {
    if w == [] || w[0] then 0 else 1 + Ctz(w[1..])
  }

  /** The value of a word. */
  function Value(w: Bitwise): nat {
    if w == [] then 0 else (if w[0] then 1 else 0) + 2 * Value(w[1..])
  }
}
