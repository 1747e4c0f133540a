/** Word arithmetic done with bitwise operators: rounding up, range masks, walking the set bits, and bitmaps. */
module BitOps {
  import opened Bits
  import opened NumberTheory

  // Numbers as words

  /** The low bits of a number. */
  function ToWord(n: nat, width: nat): (w: Bitwise)
    ensures |w| == width
  {
    if width == 0 then [] else [n % 2 == 1] + ToWord(n / 2, width - 1)
  }

  /** A bit in front of a number, against twice a divisor. */
  lemma FrontBit(b: nat, v: nat, P: nat)
    requires b < 2 && P > 0
    ensures (b + 2 * v) / (2 * P) == v / P && (b + 2 * v) % (2 * P) == b + 2 * (v % P)
  {
    var q, r := v / P, v % P;
    Swap(q, P, 2);
    assert b + 2 * v == q * (2 * P) + (b + 2 * r);
    ModUnique(q, b + 2 * r, 2 * P);
  }

  lemma {:induction false} ToWordValue(n: nat, width: nat)
    ensures Value(ToWord(n, width)) == n % Pow(2, width)
  {
    if width > 0 {
      ToWordValue(n / 2, width - 1);
      FrontBit(n % 2, n / 2, Pow(2, width - 1));
    } else {
      assert n % 1 == 0;
    }
  }

  lemma {:induction false} ToWordMask(k: nat, width: nat)
    requires k <= width
    ensures ToWord(Pow(2, k) - 1, width) == Mask(width, k)
    decreases width
  {
    if width > 0 {
      if k == 0 {
        ToWordMask(0, width - 1);
        assert Mask(width, 0) == [false] + Mask(width - 1, 0);
      } else {
        ToWordMask(k - 1, width - 1);
        assert (Pow(2, k) - 1) / 2 == Pow(2, k - 1) - 1;
        assert Mask(width, k) == [true] + Mask(width - 1, k - 1);
      }
    }
  }

  /** Setting the low bits of a word fills it up to just below the next multiple. */
  lemma {:induction false} OrMask(a: Bitwise, k: nat)
    requires k <= |a|
    ensures Value(Or(a, Mask(|a|, k))) == Value(a) / Pow(2, k) * Pow(2, k) + Pow(2, k) - 1
  {
    if k == 0 {
      assert Or(a, Mask(|a|, 0)) == a;
    } else {
      var rest, filled := a[1..], Or(a, Mask(|a|, k));
      OrMask(rest, k - 1);
      assert filled[1..] == Or(rest, Mask(|rest|, k - 1));
      assert Value(filled) == 1 + 2 * Value(filled[1..]);
      var b := if a[0] then 1 else 0;
      assert Value(a) == b + 2 * Value(rest);
      FrontBit(b, Value(rest), Pow(2, k - 1));
      assert Pow(2, k) == 2 * Pow(2, k - 1);
      Swap(Value(rest) / Pow(2, k - 1), Pow(2, k - 1), 2);
    }
  }

  // round_up

  /** ((x - 1) | (y - 1)) + 1 on words of the given width. */
  function RoundUp(x: nat, y: nat, width: nat): nat
    requires y > 0
  {
    var M := Pow(2, width);
    (Value(Or(ToWord((x - 1) % M, width), ToWord((y - 1) % M, width))) + 1) % M
  }

  ghost predicate LeastMultiple(up: nat, x: nat, y: nat)
    requires y > 0
  {
    up % y == 0 && x <= up && forall m: nat :: m % y == 0 && x <= m ==> up <= m
  }

  /** The multiple of y next after v. */
  function NextAfter(v: nat, y: nat): nat
    requires y > 0
  {
    (v / y + 1) * y
  }

  lemma LeastUnique(a: nat, b: nat, x: nat, y: nat)
    requires y > 0 && LeastMultiple(a, x, y) && LeastMultiple(b, x, y)
    ensures a == b
  {
  }

  lemma NextMultiple(v: nat, y: nat)
    requires y > 0
    ensures LeastMultiple(NextAfter(v, y), v + 1, y)
  {
    var up := NextAfter(v, y);
    ModUnique(v / y + 1, 0, y);
    Distribute(v / y, 1, y);
    forall m: nat | m % y == 0 && v + 1 <= m
      ensures up <= m
    {
      NotBetween(v, m, y);
    }
  }

  lemma NotBetween(v: nat, m: nat, y: nat)
    requires y > 0 && m % y == 0 && v < m
    ensures NextAfter(v, y) <= m
  {
    assert m == (m / y) * y;
    MultipleBelow(v, y, m / y);
  }

  lemma Wrap(r: nat, M: nat)
    requires 0 < M && r <= M
    ensures r % M == if r < M then r else 0
  {
    if r < M { ModUnique(0, r, M); } else { ModUnique(1, 0, M); }
  }

  /** The next multiple of y, below a multiple of y, is at most that multiple. */
  lemma MultipleBelow(v: nat, y: nat, c: nat)
    requires y > 0 && v < c * y
    ensures NextAfter(v, y) <= c * y
  {
    var d := c - (v / y + 1);
    assert d * y == c * y - (v / y + 1) * y;
    assert (v / y + 1) * y == v / y * y + y;
    assert d <= -1 ==> d * y + y <= 0;
  }

  lemma LastMultiple(y: nat, c: nat)
    requires y > 0 && c > 0
    ensures c * y - 1 >= 0 && NextAfter(c * y - 1, y) == c * y
  {
    assert c * y == (c - 1) * y + y;
    assert (c - 1) * y >= 0;
    ModUnique(c - 1, y - 1, y);
  }

  lemma OrMaskNext(a: Bitwise, k: nat)
    requires k <= |a|
    ensures Value(Or(a, Mask(|a|, k))) + 1 == NextAfter(Value(a), Pow(2, k))
  {
    hide Pow, Value, Or, Mask;
    OrMask(a, k);
    Distribute(Value(a) / Pow(2, k), 1, Pow(2, k));
  }

  /** What filling up the low bits comes to, for the word of x - 1. */
  lemma RoundUpValue(x: nat, k: nat, width: nat)
    requires k <= width && x < Pow(2, width)
    ensures var v := if x == 0 then Pow(2, width) - 1 else x - 1;
            RoundUp(x, Pow(2, k), width) == NextAfter(v, Pow(2, k)) % Pow(2, width)
  {
    hide Pow, Value, NextAfter;
    var y, M := Pow(2, k), Pow(2, width);
    var v := if x == 0 then M - 1 else x - 1;
    YFits(k, width);
    Wrap(y - 1, M);
    Wrap(v, M);
    assert (x - 1) % M == v by { ModUnique(if x == 0 then -1 else 0, v, M); }
    ToWordMask(k, width);
    ToWordValue(v, width);
    OrMaskNext(ToWord(v, width), k);
  }

  lemma YFits(k: nat, width: nat)
    requires k <= width
    ensures Pow(2, k) <= Pow(2, width)
  {
    PowAdd(2, k, width - k);
    var a, b := Pow(2, k), Pow(2, width - k);
    assert b >= 1 ==> a * b >= a;
  }

  /**
   * For a power of two y, round_up(x, y) is the least multiple of y from x on, when that fits the word, and 0 when it
   * does not; x = 0 goes through the wraparound of x - 1 and comes out as 0.
   */
  lemma RoundUpIsLeast(x: nat, k: nat, width: nat, up: nat)
    requires k <= width && x < Pow(2, width) && LeastMultiple(up, x, Pow(2, k))
    ensures RoundUp(x, Pow(2, k), width) == if up < Pow(2, width) then up else 0
  {
    hide Pow, RoundUp, LeastMultiple, NextAfter;
    var y, M := Pow(2, k), Pow(2, width);
    RoundUpValue(x, k, width);
    if x == 0 {
      NextWithinWord(M - 1, k, width);
      Wrap(M, M);
      ZeroMultiple(y);
      LeastUnique(up, 0, 0, y);
    } else {
      NextWithinWord(x - 1, k, width);
      NextMultiple(x - 1, y);
      LeastUnique(up, NextAfter(x - 1, y), x, y);
      Wrap(up, M);
    }
  }

  lemma NextWithinWord(v: nat, k: nat, width: nat)
    requires k <= width && v < Pow(2, width)
    ensures NextAfter(v, Pow(2, k)) <= Pow(2, width)
    ensures v == Pow(2, width) - 1 ==> NextAfter(v, Pow(2, k)) == Pow(2, width)
  {
    hide Pow, NextAfter;
    PowAdd(2, k, width - k);
    NextWithin(v, Pow(2, k), Pow(2, width - k), Pow(2, width));
  }

  lemma NextWithin(v: nat, y: nat, c: nat, M: nat)
    requires y > 0 && c > 0 && M == y * c && v < M
    ensures NextAfter(v, y) <= M && (v == M - 1 ==> NextAfter(v, y) == M)
  {
    hide NextAfter;
    assert y * c == c * y;
    MultipleBelow(v, y, c);
    LastMultiple(y, c);
  }

  lemma ZeroMultiple(y: nat)
    requires y > 0
    ensures LeastMultiple(0, 0, y)
  {
  }

  // GENMASK_ULL and for_each_set_bit

  /** 1 << n */
  function Bit(width: nat, n: nat): (w: Bitwise)
    ensures |w| == width && forall i :: 0 <= i < width ==> (w[i] <==> i == n)
  {
    Shl(seq(width, i => i == 0), n)
  }

  lemma {:induction false} BitValue(width: nat, n: nat)
    requires n < width
    ensures Value(Bit(width, n)) == Pow(2, n)
  {
    if n == 0 {
      NothingSet(Bit(width, 0)[1..]);
    } else {
      BitValue(width - 1, n - 1);
      assert Bit(width, n)[1..] == Bit(width - 1, n - 1);
    }
  }

  lemma {:induction false} NothingSet(w: Bitwise)
    requires IsZero(w)
    ensures Value(w) == 0
  {
    if w != [] { NothingSet(w[1..]); }
  }

  /** ((1 << (h - l + 1)) - 1) << l on 64 bits. */
  function GenMask(h: nat, l: nat): (w: Bitwise)
    requires l <= h < 64 && h - l + 1 < 64
    ensures |w| == 64
  {
    var one := Value(Bit(64, h - l + 1));
    Shl(ToWord(if one == 0 then Pow(2, 64) - 1 else one - 1, 64), l)
  }

  /** The mask has exactly the bits l to h. */
  lemma GenMaskBits(h: nat, l: nat)
    requires l <= h < 64 && h - l + 1 < 64
    ensures forall i :: 0 <= i < 64 ==> (GenMask(h, l)[i] <==> l <= i <= h)
  {
    BitValue(64, h - l + 1);
    ToWordMask(h - l + 1, 64);
  }

  /** find_next_bit: the first set bit from `offset` on, or the size. */
  method FindNextBit(w: Bitwise, size: nat, offset: nat) returns (bit: nat)
    requires size <= |w|
    ensures bit == size || (offset <= bit < size && w[bit])
    ensures forall i :: offset <= i < bit && i < size ==> !w[i]
  {
    bit := offset;
    while bit < size && !w[bit]
      invariant offset <= bit
      invariant forall i :: offset <= i < bit && i < size ==> !w[i]
    {
      bit := bit + 1;
    }
    if bit > size {
      bit := size;
    }
  }

  ghost predicate Increasing(s: seq<nat>) {
    forall a, b :: 0 <= a < b < |s| ==> s[a] < s[b]
  }

  /** for_each_set_bit, with a body that notes the bit: every set bit below the size, once each, in increasing order. */
  method ForEachSetBit(w: Bitwise, size: nat) returns (visited: seq<nat>)
    requires size <= |w|
    ensures Increasing(visited)
    ensures forall i: nat :: i in visited <==> i < size && w[i]
  {
    visited := [];
    var bit := FindNextBit(w, size, 0);
    while bit < size
      invariant bit == size || (bit < size && w[bit])
      invariant Increasing(visited)
      invariant forall i: nat :: i in visited <==> i < bit && i < size && w[i]
      decreases size - bit
    {
      ghost var before, last := visited, bit;
      assert forall k :: 0 <= k < |visited| ==> visited[k] in visited;
      visited := visited + [bit];
      bit := FindNextBit(w, size, bit + 1);
      assert forall i: nat :: i in visited <==> i in before || i == last;
    }
  }

  lemma FirstIsIn(s: seq<nat>)
    requires s != []
    ensures s[0] in s
  {
  }

  /** The greatest element of a range stands last, and the rest of the range before it. */
  lemma LastOfRange(s: seq<nat>, l: nat, n: nat)
    requires Increasing(s) && n > 0 && forall i: nat :: i in s <==> l <= i < l + n
    ensures s != [] && s[|s| - 1] == l + n - 1
  {
    assert l + n - 1 in s;
    var p :| 0 <= p < |s| && s[p] == l + n - 1;
    assert s[|s| - 1] in s;
  }

  lemma FrontOfRange(s: seq<nat>, i: nat)
    requires Increasing(s) && s != []
    ensures i in s[..|s| - 1] <==> i in s && i != s[|s| - 1]
  {
    if i in s && i != s[|s| - 1] {
      var q :| 0 <= q < |s| && s[q] == i;
      assert s[..|s| - 1][q] == i;
    }
  }

  /** There is only one increasing sequence of given elements. */
  lemma {:induction false} OnlyRange(s: seq<nat>, l: nat, n: nat)
    requires Increasing(s) && forall i: nat :: i in s <==> l <= i < l + n
    ensures s == seq(n, i requires 0 <= i < n => l + i)
    decreases n
  {
    if n == 0 {
      if s != [] { FirstIsIn(s); }
    } else {
      LastOfRange(s, l, n);
      var front := s[..|s| - 1];
      forall i: nat
        ensures i in front <==> l <= i < l + (n - 1)
      {
        FrontOfRange(s, i);
      }
      OnlyRange(front, l, n - 1);
      assert s == front + [s[|s| - 1]];
    }
  }

  /** Walking the bits of a range mask visits l, l + 1, ..., h. */
  method WalkGenMask(h: nat, l: nat, size: nat) returns (visited: seq<nat>)
    requires l <= h < size <= 64 && h - l + 1 < 64
    ensures visited == seq(h - l + 1, i requires 0 <= i < h - l + 1 => l + i)
  {
    GenMaskBits(h, l);
    visited := ForEachSetBit(GenMask(h, l), size);
    OnlyRange(visited, l, h - l + 1);
  }

  // CPA_BITMAP

  /** A bitmap of some size in bits, in 32-bit words. */
  class Bitmap {
    const size: nat
    const words: array<Bitwise>

    ghost predicate Valid()
      reads this, words
    {
      words.Length == (size + 31) / 32 && forall i :: 0 <= i < words.Length ==> |words[i]| == 32
    }

    /** The bits that are set, as a set. */
    ghost function Contents(): set<nat>
      requires Valid()
      reads this, words
    {
      set b: nat | b < 32 * words.Length && words[b / 32][b % 32]
    }

    constructor (size: nat)
      ensures Valid() && this.size == size && fresh(words) && Contents() == {}
    {
      this.size := size;
      words := new Bitwise[(size + 31) / 32](_ => Filled(32, false));
    }

    /** CPA_BITMAP_BIT_TEST */
    method Test(bit: nat) returns (set1: bool)
      requires Valid() && bit < size
      ensures set1 <==> bit in Contents()
    {
      var masked := And(words[bit / 32], Bit(32, bit % 32));
      set1 := !IsZero(masked);
      assert masked[bit % 32] == words[bit / 32][bit % 32];
    }

    /** CPA_BITMAP_BIT_SET */
    method Set(bit: nat)
      requires Valid() && bit < size
      modifies words
      ensures Valid() && Contents() == old(Contents()) + {bit}
    {
      words[bit / 32] := Or(words[bit / 32], Bit(32, bit % 32));
    }

    /** CPA_BITMAP_BIT_CLEAR */
    method Clear(bit: nat)
      requires Valid() && bit < size
      modifies words
      ensures Valid() && Contents() == old(Contents()) - {bit}
    {
      words[bit / 32] := And(words[bit / 32], Not(Bit(32, bit % 32)));
    }
  }
}
