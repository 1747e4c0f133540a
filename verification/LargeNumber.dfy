/** Large numbers as big-endian octet strings, and the driver's helpers that inspect them. */
module LargeNumber {
  import opened NumberTheory
  import opened Types

  const MAX_NUMBER_BYTES := 512

  /** The number an octet string stands for: the last octet is the least significant one. */
  function Value(s: seq<byte>): nat {
    if s == [] then 0 else Value(s[..|s| - 1]) * 256 + s[|s| - 1]
  }

  /** Writing n into a buffer of len octets, refused when the buffer is too short. */
  function Encode(n: nat, len: nat): (r: Option<seq<byte>>)
    ensures r.Some? <==> n < Pow(256, len)
    ensures r.Some? ==> |r.value| == len && Value(r.value) == n
  {
    if len == 0 then
      if n == 0 then Some([]) else None
    else
      var rest := Encode(n / 256, len - 1);
      assert n < Pow(256, len) <==> n / 256 < Pow(256, len - 1) by {
        assert Pow(256, len) == 256 * Pow(256, len - 1);
      }
      if rest.None? then None else
        var s := rest.value + [n % 256];
        assert s[..len - 1] == rest.value;
        Some(s)
  }

  lemma {:induction false} ValueBound(s: seq<byte>)
    ensures Value(s) < Pow(256, |s|)
  {
    if s != [] { ValueBound(s[..|s| - 1]); }
  }

  /** The low part and the high part of an octet string. */
  lemma {:induction false} ValueConcat(s: seq<byte>, t: seq<byte>)
    ensures Value(s + t) == Value(s) * Pow(256, |t|) + Value(t)
  {
    if t == [] {
      assert s + t == s;
    } else {
      var t', n := t[..|t| - 1], |t| - 1;
      assert (s + t)[..|s + t| - 1] == s + t';
      ValueConcat(s, t');
      Swap(Value(s), Pow(256, n), 256);
    }
  }

  lemma ValueFront(s: seq<byte>)
    requires s != []
    ensures Value(s) == s[0] * Pow(256, |s| - 1) + Value(s[1..])
  {
    assert s == [s[0]] + s[1..];
    ValueConcat([s[0]], s[1..]);
    assert Value([s[0]]) == s[0] by { assert [s[0]][..0] == []; }
  }

  /** Leading zero octets never change the value. */
  lemma {:induction false} LeadingZeros(z: seq<byte>, s: seq<byte>)
    requires forall i :: 0 <= i < |z| ==> z[i] == 0
    ensures Value(z + s) == Value(s)
  {
    if z == [] {
      assert z + s == s;
    } else {
      ValueFront(z + s);
      assert (z + s)[1..] == z[1..] + s;
      LeadingZeros(z[1..], s);
    }
  }

  /** Octet strings of one length are told apart by their values. */
  lemma {:induction false} ValueInjective(s: seq<byte>, t: seq<byte>)
    requires |s| == |t| && Value(s) == Value(t)
    ensures s == t
  {
    if s != [] {
      var n := |s| - 1;
      assert s[n] == Value(s) % 256 && t[n] == Value(t) % 256;
      ValueInjective(s[..n], t[..n]);
      assert s == s[..n] + [s[n]] && t == t[..n] + [t[n]];
    }
  }

  /** Reading a buffer and writing the number back into a buffer of the same size restores it. */
  lemma EncodeValue(s: seq<byte>)
    ensures Encode(Value(s), |s|) == Some(s)
  {
    ValueBound(s);
    ValueInjective(Encode(Value(s), |s|).value, s);
  }

  /** n is the bit length of v. */
  ghost predicate IsBitLength(n: nat, v: nat) {
    if v == 0 then n == 0 else n > 0 && Pow(2, n - 1) <= v < Pow(2, n)
  }

  lemma {:induction false} PowEight(n: nat)
    ensures Pow(256, n) == Pow(2, 8 * n)
  {
    if n > 0 {
      PowEight(n - 1);
      PowAdd(2, 8, 8 * (n - 1));
      assert Pow(2, 8) == 256 by {
        assert Pow(2, 4) == 16;
        PowAdd(2, 4, 4);
      }
    }
  }

  /** The number of octets left once the leading zeros are dropped. */
  method GetMinBytes(s: seq<byte>) returns (n: nat)
    ensures n <= |s|
    ensures Value(s) == Value(s[|s| - n..])
    ensures forall i :: 0 <= i < |s| - n ==> s[i] == 0
    ensures n > 0 ==> s[|s| - n] != 0
    ensures n == 0 <==> Value(s) == 0
    ensures n > 0 ==> Pow(256, n - 1) <= Value(s) < Pow(256, n)
  {
    var i := 0;
    while i < |s| && s[i] == 0
      invariant 0 <= i <= |s|
      invariant forall j :: 0 <= j < i ==> s[j] == 0
    {
      i := i + 1;
    }
    n := |s| - i;
    assert s == s[..i] + s[i..];
    LeadingZeros(s[..i], s[i..]);
    if n > 0 {
      ValueFront(s[i..]);
      ValueBound(s[i..]);
      MulAtLeast(s[i], Pow(256, n - 1));
    }
  }

  lemma MulAtLeast(k: nat, x: nat)
    requires k > 0
    ensures k * x >= x
  {
  }

  /** The loop that counts the clear bits above the top set bit of the most significant octet. */
  method TopBitsClear(octet: byte) returns (k: nat)
    requires octet > 0
    ensures k < 8 && Pow(2, 7 - k) <= octet < Pow(2, 8 - k)
  {
    var ms := octet as int;
    k := 0;
    while ms < 128
      invariant k < 8 && 0 < ms < 256 && ms == octet * Pow(2, k)
      decreases 256 - ms
    {
      TopByteBound(octet, k, ms);
      Swap(octet, Pow(2, k), 2);
      ms := ms * 2;
      k := k + 1;
    }
    TopByteBound(octet, k, ms);
  }

  /** The bit length, or nothing when the number is longer than the driver supports. */
  method GetBitLen(s: seq<byte>) returns (r: Option<nat>)
    ensures r.None? <==> Value(s) >= Pow(256, MAX_NUMBER_BYTES)
    ensures r.Some? ==> IsBitLength(r.value, Value(s))
    ensures r.Some? ==> r.value <= 4096 && Value(s) < Pow(2, r.value)
    ensures r.Some? && Value(s) > 0 ==> r.value > 0 && Pow(2, r.value - 1) <= Value(s)
    ensures r.Some? && Value(s) == 0 ==> r.value == 0
    ensures r.None? ==> forall n: nat :: Value(s) < Pow(2, n) ==> n > 4096
  {
    hide Pow;
    var n := GetMinBytes(s);
    SizeVersusValue(n, Value(s));
    if n == 0 {
      ZeroBits();
      return Some(0);
    }
    if n > MAX_NUMBER_BYTES {
      MoreBits(n, Value(s));
      return None;
    }
    ghost var t := s[|s| - n..];
    ValueFront(t);
    ValueBound(t[1..]);
    var k := TopBitsClear(s[|s| - n]);
    BitLengthFromTop(t[0], k, Value(t[1..]), n - 1);
    r := Some(8 * n - k);
  }

  lemma ZeroBits()
    ensures Pow(2, 0) == 1
  {
  }

  /** A number of more than 512 octets has more than 4096 bits. */
  lemma MoreBits(n: nat, v: nat)
    requires n > 512 && Pow(256, n - 1) <= v
    ensures forall k: nat :: v < Pow(2, k) ==> k > 4096
  {
    PowEight(n - 1);
    forall k: nat | v < Pow(2, k)
      ensures k > 4096
    {
      hide Pow;
      if k <= 4096 { PowMonotone(2, k, 8 * (n - 1)); }
    }
  }

  lemma SmallPowers()
    ensures Pow(2, 0) == 1 && Pow(2, 1) == 2 && Pow(2, 2) == 4 && Pow(2, 3) == 8 && Pow(2, 4) == 16
    ensures Pow(2, 5) == 32 && Pow(2, 6) == 64 && Pow(2, 7) == 128 && Pow(2, 8) == 256
  {
    assert Pow(2, 4) == 16;
    PowAdd(2, 4, 1);
    PowAdd(2, 4, 2);
    PowAdd(2, 4, 3);
    PowAdd(2, 4, 4);
  }

  /** How many doublings bring the top bit of an octet to the front. */
  lemma TopByteBound(b: int, k: nat, ms: int)
    requires 0 < b < 256 && k < 8 && ms == b * Pow(2, k) < 256
    ensures ms < 128 ==> k < 7
    ensures ms >= 128 ==> Pow(2, 7 - k) <= b < Pow(2, 8 - k)
  {
    SmallPowers();
  }

  lemma SizeVersusValue(n: nat, v: nat)
    requires n == 0 <==> v == 0
    requires n > 0 ==> Pow(256, n - 1) <= v < Pow(256, n)
    ensures n > MAX_NUMBER_BYTES <==> v >= Pow(256, MAX_NUMBER_BYTES)
  {
    assert Pow(256, 0) == 1;
    hide Pow;
    if n > MAX_NUMBER_BYTES {
      PowMonotone(256, MAX_NUMBER_BYTES, n - 1);
    } else {
      PowMonotone(256, n, MAX_NUMBER_BYTES);
    }
  }

  lemma {:induction false} PowMonotone(b: int, i: nat, j: nat)
    requires b >= 1 && i <= j
    ensures Pow(b, i) <= Pow(b, j)
    decreases j
  {
    if i < j {
      PowMonotone(b, i, j - 1);
      assert Pow(b, j) == b * Pow(b, j - 1);
      MulAtLeast(b, Pow(b, j - 1));
    }
  }

  /** A top octet with its own bit length, above m further octets. */
  lemma BitLengthFromTop(b: int, k: nat, low: nat, m: nat)
    requires k < 8 && Pow(2, 7 - k) <= b < Pow(2, 8 - k) && low < Pow(256, m)
    ensures IsBitLength(8 * m + 8 - k, b * Pow(256, m) + low)
  {
    var P := Pow(256, m);
    PowEight(m);
    PowAdd(2, 7 - k, 8 * m);
    PowAdd(2, 8 - k, 8 * m);
    MulMonotone(Pow(2, 7 - k), b, P);
    MulMonotone(b + 1, Pow(2, 8 - k), P);
    Distribute(b, 1, P);
  }

  lemma MulMonotone(x: int, y: int, k: int)
    requires k >= 0 && x <= y
    ensures x * k <= y * k
  {
  }

  // ---------------------------------------------------------------- comparison

  function Sgn(x: int): int {
    if x < 0 then -1 else if x > 0 then 1 else 0
  }

  function Max(x: int, y: int): int {
    if x < y then y else x
  }

  /** The C library's byte-wise comparison of two buffers of one length. */
  function Memcmp(s: seq<byte>, t: seq<byte>): int
    requires |s| == |t|
  {
    if s == [] then 0
    else if s[0] != t[0] then s[0] - t[0]
    else Memcmp(s[1..], t[1..])
  }

  lemma {:induction false} MemcmpSign(s: seq<byte>, t: seq<byte>)
    requires |s| == |t|
    ensures Sgn(Memcmp(s, t)) == Sgn(Value(s) - Value(t))
  {
    if s != [] {
      ValueFront(s);
      ValueFront(t);
      ValueBound(s[1..]);
      ValueBound(t[1..]);
      var P := Pow(256, |s| - 1);
      if s[0] < t[0] {
        MulMonotone(s[0] + 1, t[0], P);
        Distribute(s[0], 1, P);
      } else if s[0] > t[0] {
        MulMonotone(t[0] + 1, s[0], P);
        Distribute(t[0], 1, P);
      } else {
        MemcmpSign(s[1..], t[1..]);
      }
    }
  }

  /** What the byte-wise subtraction answers: the sign of the difference, except that a difference
      which is a multiple of 256^max(lengths) is reported as equality. */
  function CompareSign(a: seq<byte>, deltaA: int, b: seq<byte>, deltaB: int): int {
    var d := (Value(a) + deltaA) - (Value(b) + deltaB);
    if d % Pow(256, Max(|a|, |b|)) == 0 then 0 else Sgn(d)
  }

  /** Less, equal or greater: what each answer means. */
  lemma CompareSignIs(a: seq<byte>, deltaA: int, b: seq<byte>, deltaB: int)
    ensures var d := (Value(a) + deltaA) - (Value(b) + deltaB);
            var multiple := d % Pow(256, if |a| < |b| then |b| else |a|) == 0;
            var r := CompareSign(a, deltaA, b, deltaB);
            (r == -1 <==> d < 0 && !multiple) && (r == 0 <==> multiple) && (r == 1 <==> d > 0 && !multiple)
  {
    hide Pow, Value;
  }

  /** Compares a + deltaA with b + deltaB, least significant octet first. */
  method Compare(a: seq<byte>, deltaA: int, b: seq<byte>, deltaB: int) returns (r: int)
    requires |a| + |b| > 0
    requires -0x4000_0000 < deltaA < 0x4000_0000 && -0x4000_0000 < deltaB < 0x4000_0000
    ensures Sgn(r) == CompareSign(a, deltaA, b, deltaB)
  {
    var delta := deltaA - deltaB;
    var lenA, lenB := |a|, |b|;
    if lenA == lenB && delta == 0 {
      r := Memcmp(a, b);
      MemcmpSign(a, b);
      CompareSignExact(a, deltaA, b, deltaB);
      return;
    }
    hide Pow, Value, Carries, CompareSign;
    var notZero := false;
    ghost var k, low := 0, 0;
    CarriesNothing(a, b, deltaA - deltaB);
    while lenA > 0 || lenB > 0
      invariant 0 <= lenA <= |a| && lenA == Max(|a| - k, 0)
      invariant 0 <= lenB <= |b| && lenB == Max(|b| - k, 0)
      invariant 0 <= k <= Max(|a|, |b|)
      invariant notZero <==> low != 0
      invariant Carries(a, b, deltaA - deltaB, k, delta, low)
      decreases lenA + lenB
    {
      ghost var sum := delta + Octet(a, k) - Octet(b, k);
      CarryOctet(a, b, deltaA - deltaB, k, delta, low);
      if lenA > 0 {
        lenA := lenA - 1;
        delta := delta + a[lenA];
      }
      if lenB > 0 {
        lenB := lenB - 1;
        delta := delta - b[lenB];
      }
      assert delta == sum;
      notZero := notZero || delta % 256 != 0;
      low := low + (delta % 256) * Pow(256, k);
      delta := delta / 256;
      k := k + 1;
    }
    CarriesAll(a, deltaA, b, deltaB, delta, low);
    r := if notZero then (if delta < 0 then -1 else 1) else 0;
  }

  /** The difference of the last k octets, as what is carried on and what is left below. */
  ghost predicate Carries(a: seq<byte>, b: seq<byte>, d: int, k: nat, delta: int, low: int) {
    0 <= low < Pow(256, k) && LowValue(a, k) - LowValue(b, k) + d == delta * Pow(256, k) + low
  }

  lemma CarriesNothing(a: seq<byte>, b: seq<byte>, d: int)
    ensures Carries(a, b, d, 0, d, 0)
  {
    assert a[|a|..] == [] && b[|b|..] == [];
  }

  /** One octet more. */
  lemma CarryOctet(a: seq<byte>, b: seq<byte>, d: int, k: nat, delta: int, low: int)
    requires Carries(a, b, d, k, delta, low)
    ensures var sum := delta + Octet(a, k) - Octet(b, k);
            var low' := low + (sum % 256) * Pow(256, k);
            && Carries(a, b, d, k + 1, sum / 256, low')
            && (low' == 0 <==> low == 0 && sum % 256 == 0)
  {
    var P, sum := Pow(256, k), delta + Octet(a, k) - Octet(b, k);
    assert Pow(256, k + 1) == 256 * P;
    hide Pow, LowValue;
    LowStep(a, k);
    LowStep(b, k);
    CarryAdd(delta, Octet(a, k), Octet(b, k), P);
    CarryStep(sum, P, low);
  }

  lemma CarriesAll(a: seq<byte>, deltaA: int, b: seq<byte>, deltaB: int, delta: int, low: int)
    requires Carries(a, b, deltaA - deltaB, Max(|a|, |b|), delta, low)
    ensures CompareSign(a, deltaA, b, deltaB) == if low == 0 then 0 else if delta < 0 then -1 else 1
  {
    assert a[0..] == a && b[0..] == b;
    hide Pow, Value;
    CarryFinal(delta, Pow(256, Max(|a|, |b|)), low);
  }

  /** The k-th octet from the end, and the value of the last k octets. */
  function Octet(s: seq<byte>, k: nat): byte {
    if k < |s| then s[|s| - 1 - k] else 0
  }

  function LowValue(s: seq<byte>, k: nat): nat {
    Value(s[Max(|s| - k, 0)..])
  }

  lemma LowStep(s: seq<byte>, k: nat)
    ensures LowValue(s, k + 1) == LowValue(s, k) + Octet(s, k) * Pow(256, k)
  {
    if k < |s| {
      var t := s[|s| - 1 - k..];
      ValueFront(t);
      assert t[1..] == s[|s| - k..];
    }
  }

  lemma CarryAdd(delta: int, x: int, y: int, P: int)
    ensures (delta + x - y) * P == delta * P + x * P - y * P
  {
    Distribute(delta, x, P);
    Distribute(delta + x, y, P);
  }

  lemma CarryStep(delta: int, P: int, low: int)
    requires P > 0 && 0 <= low < P
    ensures delta * P + low == (delta / 256) * (256 * P) + (low + (delta % 256) * P)
    ensures 0 <= low + (delta % 256) * P < 256 * P
    ensures low + (delta % 256) * P == 0 <==> low == 0 && delta % 256 == 0
  {
    var q, r := delta / 256, delta % 256;
    assert delta == q * 256 + r;
    Distribute(q * 256, r, P);
    Swap(q, 256, P);
    MulMonotone(r, 255, P);
    if r > 0 { MulAtLeast(r, P); }
  }

  lemma CarryFinal(delta: int, P: int, low: int)
    requires P > 0 && 0 <= low < P
    ensures (delta * P + low) % P == low
    ensures low != 0 ==> Sgn(delta * P + low) == (if delta < 0 then -1 else 1)
  {
    ModUnique(delta, low, P);
    if delta < 0 {
      MulMonotone(delta, -1, P);
    } else {
      MulMonotone(0, delta, P);
    }
  }

  /** The comparison is right exactly when the difference is zero or not a multiple of
      256^max(lengths). */
  lemma CompareCorrectIff(a: seq<byte>, deltaA: int, b: seq<byte>, deltaB: int)
    ensures CompareSign(a, deltaA, b, deltaB) == Sgn((Value(a) + deltaA) - (Value(b) + deltaB)) <==>
            var d := (Value(a) + deltaA) - (Value(b) + deltaB);
            d == 0 || d % Pow(256, Max(|a|, |b|)) != 0
  {
  }

  /** With equal deltas it is always right. */
  lemma CompareSignExact(a: seq<byte>, deltaA: int, b: seq<byte>, deltaB: int)
    requires deltaA == deltaB
    ensures CompareSign(a, deltaA, b, deltaB) == Sgn(Value(a) - Value(b))
  {
    ValueBound(a);
    PowMonotone(256, |a|, Max(|a|, |b|));
    CompareSmall(a, b, Value(a) - Value(b));
  }

  /** Against b - 1 it is right unless a is all ones and b is zero. */
  lemma ComparePredecessor(a: seq<byte>, b: seq<byte>)
    ensures CompareSign(a, 0, b, -1) == Sgn(Value(a) - (Value(b) - 1)) <==>
            !(Value(b) == 0 && Value(a) + 1 == Pow(256, Max(|a|, |b|)))
  {
    hide Pow, Value;
    var M, d := Pow(256, Max(|a|, |b|)), Value(a) - Value(b) + 1;
    ValueBound(a);
    ValueBound(b);
    PowMonotone(256, |a|, Max(|a|, |b|));
    PowMonotone(256, |b|, Max(|a|, |b|));
    if d == M {
      ModMultiple(1, M);
    } else {
      CompareSmall(a, b, d);
    }
  }

  lemma CompareSmall(a: seq<byte>, b: seq<byte>, d: int)
    requires Value(a) - Value(b) <= d <= Value(a) - Value(b) + 1
    requires d < Pow(256, Max(|a|, |b|))
    ensures d % Pow(256, Max(|a|, |b|)) == 0 <==> d == 0
  {
    hide Pow, Value;
    var M := Pow(256, Max(|a|, |b|));
    ValueBound(a);
    ValueBound(b);
    PowMonotone(256, |b|, Max(|a|, |b|));
    if d >= 0 {
      ModUnique(0, d, M);
    } else {
      ModUnique(-1, d + M, M);
    }
  }

  /** A difference of exactly 256 between one-octet numbers is reported as equality. */
  lemma CompareReportsEqual()
    ensures CompareSign([255], 1, [0], 0) == 0
    ensures (Value([255]) + 1) - (Value([0]) + 0) == 256
  {
    assert [255][..0] == [] && [0][..0] == [];
    assert Value([255]) == 255 && Value([0]) == 0;
    assert Pow(256, 1) == 256;
  }

  /** Compares s + delta with zero. */
  method CompareZero(s: seq<byte>, delta: int) returns (r: int)
    requires s != [] && -128 <= delta <= 127
    ensures Sgn(r) == Sgn(Value(s) + delta)
    ensures (r < 0 <==> Value(s) + delta < 0) && (r > 0 <==> Value(s) + delta > 0)
  {
    var n := |s| - 1;
    ghost var front := s[..n];
    var i := n;
    while i > 0
      invariant 0 <= i <= n
      invariant forall j :: i <= j < n ==> s[j] == 0
    {
      i := i - 1;
      if s[i] != 0 {
        if Value(front) == 0 { ZeroOctets(front, i); }
        return 1;
      }
    }
    LeadingZeros(front, []);
    assert front + [] == front;
    r := s[n] + delta;
  }

  lemma {:induction false} ZeroOctets(s: seq<byte>, i: nat)
    requires i < |s| && Value(s) == 0
    ensures s[i] == 0
  {
    if i < |s| - 1 { ZeroOctets(s[..|s| - 1], i); }
  }
}
