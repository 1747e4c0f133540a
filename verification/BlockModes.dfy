/** Modes of operation (NIST SP 800-38A sections 6.2 and 6.5) and messages processed in parts with a carried state. */
module BlockModes {
  import NumberTheory

  type Octets = seq<bv8>

  /** A keyed block cipher; nothing is known of it but that decryption undoes encryption. */
  datatype Cipher = Cipher(size: nat, enc: Octets -> Octets, dec: Octets -> Octets)

  ghost predicate IsCipher(c: Cipher) {
    && c.size > 0
    && forall x: Octets :: |x| == c.size ==> |c.enc(x)| == c.size && c.dec(c.enc(x)) == x
  }

  function Xor(a: Octets, b: Octets): (r: Octets)
    requires |b| <= |a|
    ensures |r| == |b|
  {
    seq(|b|, k requires 0 <= k < |b| => a[k] ^ b[k])
  }

  lemma XorTwice(a: Octets, b: Octets)
    requires |b| <= |a|
    ensures Xor(a, Xor(a, b)) == b
    ensures |a| == |b| ==> Xor(Xor(a, b), a) == b
  {
    forall k | 0 <= k < |b|
      ensures a[k] ^ (a[k] ^ b[k]) == b[k] && (a[k] ^ b[k]) ^ a[k] == b[k]
    {
      XorBits(a[k], b[k]);
    }
  }

  lemma XorBits(x: bv8, y: bv8)
    ensures x ^ (x ^ y) == y && (x ^ y) ^ x == y
  {
  }

  /** A mode takes the carried state and the next chunk to the output and the state to carry on. */
  datatype Mode = Mode(size: nat, step: (Octets, Octets) -> (Octets, Octets))

  function CbcEncryption(c: Cipher): Mode {
    Mode(c.size, (s: Octets, p: Octets) => if |p| == |s| then (c.enc(Xor(s, p)), c.enc(Xor(s, p))) else (p, s))
  }

  function CbcDecryption(c: Cipher): Mode {
    Mode(c.size, (s: Octets, x: Octets) => if |s| <= |c.dec(x)| then (Xor(c.dec(x), s), x) else (x, s))
  }

  function Counter(c: Cipher, next: Octets -> Octets): Mode {
    Mode(c.size, (s: Octets, p: Octets) => if |p| <= |c.enc(s)| then (Xor(c.enc(s), p), next(s)) else (p, s))
  }

  function Chunk(size: nat, data: Octets): (n: nat)
    requires size > 0
    ensures n <= |data| && (data != [] ==> 0 < n <= size)
  {
    if |data| < size then |data| else size
  }

  /** One full-packet operation. */
  function Process(m: Mode, s: Octets, data: Octets): (Octets, Octets)
    requires m.size > 0
    decreases |data|
  {
    if data == [] then ([], s) else
      var n := Chunk(m.size, data);
      var (out, s1) := m.step(s, data[..n]);
      var (rest, s2) := Process(m, s1, data[n..]);
      (out + rest, s2)
  }

  /** The same, part by part, the state carried from each to the next. */
  function ProcessParts(m: Mode, s: Octets, parts: seq<Octets>): (Octets, Octets)
    requires m.size > 0
    decreases |parts|
  {
    if parts == [] then ([], s) else
      var (out, s1) := Process(m, s, parts[0]);
      var (rest, s2) := ProcessParts(m, s1, parts[1..]);
      (out + rest, s2)
  }

  function Concat(parts: seq<Octets>): Octets {
    if parts == [] then [] else parts[0] + Concat(parts[1..])
  }

  /** Every part but the last is a whole number of blocks. */
  ghost predicate Legal(size: nat, parts: seq<Octets>)
    requires size > 0
  {
    forall k :: 0 <= k < |parts| - 1 ==> |parts[k]| % size == 0
  }

  /** So the last part, and a message in one part, may have any length. */
  lemma LegalMeans(size: nat, parts: seq<Octets>, last: Octets)
    requires size > 0
    ensures Legal(size, parts + [last]) <==> forall k :: 0 <= k < |parts| ==> |parts[k]| % size == 0
  {
    assert forall k :: 0 <= k < |parts| ==> (parts + [last])[k] == parts[k];
  }

  lemma WholeBlocks(a: nat, n: nat)
    requires n > 0 && a > 0 && a % n == 0
    ensures a >= n && (a - n) % n == 0
  {
    var q := a / n;
    assert a == q * n;
    assert q >= 1;
    NumberTheory.ModUnique(q - 1, 0, n);
    assert (q - 1) * n == a - n;
  }

  lemma {:induction false} Split(m: Mode, s: Octets, a: Octets, b: Octets)
    requires m.size > 0 && |a| % m.size == 0
    ensures var (outA, sA) := Process(m, s, a);
            var (outB, sB) := Process(m, sA, b);
            Process(m, s, a + b) == (outA + outB, sB)
    decreases |a|
  {
    if a == [] {
      assert a + b == b;
      assert [] + Process(m, s, b).0 == Process(m, s, b).0;
    } else {
      var n := m.size;
      WholeBlocks(|a|, n);
      var s1 := m.step(s, a[..n]).1;
      Split(m, s1, a[n..], b);
      assert (a + b)[..n] == a[..n] && (a + b)[n..] == a[n..] + b;
      var out, outA, outB := m.step(s, a[..n]).0, Process(m, s1, a[n..]).0, Process(m, Process(m, s1, a[n..]).1, b).0;
      assert out + (outA + outB) == (out + outA) + outB;
    }
  }

  /** Processing a message in parts is processing it whole. */
  lemma {:induction false} PartsAreWhole(m: Mode, s: Octets, parts: seq<Octets>)
    requires m.size > 0 && Legal(m.size, parts)
    ensures ProcessParts(m, s, parts) == Process(m, s, Concat(parts))
    decreases |parts|
  {
    if parts != [] {
      var s1 := Process(m, s, parts[0]).1;
      PartsAreWhole(m, s1, parts[1..]);
      if |parts| == 1 {
        assert parts[0] + [] == parts[0];
        assert Process(m, s, parts[0]).0 + [] == Process(m, s, parts[0]).0;
      } else {
        Split(m, s, parts[0], Concat(parts[1..]));
      }
    }
  }

  lemma CbcSteps(c: Cipher, s: Octets, p: Octets)
    requires IsCipher(c) && |s| == c.size <= |p|
    ensures |c.enc(Xor(s, p[..c.size]))| == c.size
    ensures var x := c.enc(Xor(s, p[..c.size]));
            Process(CbcEncryption(c), s, p).0 == x + Process(CbcEncryption(c), x, p[c.size..]).0
    ensures forall rest: Octets ::
              Process(CbcDecryption(c), s, c.enc(Xor(s, p[..c.size])) + rest).0 ==
              p[..c.size] + Process(CbcDecryption(c), c.enc(Xor(s, p[..c.size])), rest).0
  {
    var n := c.size;
    var x := c.enc(Xor(s, p[..n]));
    XorTwice(s, p[..n]);
    forall rest: Octets
      ensures Process(CbcDecryption(c), s, x + rest).0 == p[..n] + Process(CbcDecryption(c), x, rest).0
    {
      assert (x + rest)[..n] == x && (x + rest)[n..] == rest;
    }
  }

  lemma {:induction false} CbcInverse(c: Cipher, iv: Octets, p: Octets)
    requires IsCipher(c) && |iv| == c.size && |p| % c.size == 0
    ensures var x := Process(CbcEncryption(c), iv, p).0;
            |x| == |p| && Process(CbcDecryption(c), iv, x).0 == p
    decreases |p|
  {
    if p != [] {
      var n := c.size;
      WholeBlocks(|p|, n);
      hide Process, IsCipher, Xor;
      CbcSteps(c, iv, p);
      CbcInverse(c, c.enc(Xor(iv, p[..n])), p[n..]);
      assert p[..n] + p[n..] == p;
    }
  }

  ghost predicate KeepsSize(next: Octets -> Octets, size: nat) {
    forall x: Octets :: |x| == size ==> |next(x)| == size
  }

  lemma CounterSteps(c: Cipher, next: Octets -> Octets, s: Octets, p: Octets)
    requires c.size > 0 && |s| == c.size == |c.enc(s)| && p != []
    ensures var m, n := Counter(c, next), Chunk(c.size, p);
            Process(m, s, p).0 == Xor(c.enc(s), p[..n]) + Process(m, next(s), p[n..]).0
    ensures var m, n := Counter(c, next), Chunk(c.size, p);
            forall rest: Octets :: |rest| == |p| - n ==>
              Process(m, s, Xor(c.enc(s), p[..n]) + rest).0 == p[..n] + Process(m, next(s), rest).0
  {
    var m, n := Counter(c, next), Chunk(c.size, p);
    var x := Xor(c.enc(s), p[..n]);
    XorTwice(c.enc(s), p[..n]);
    forall rest: Octets | |rest| == |p| - n
      ensures Process(m, s, x + rest).0 == p[..n] + Process(m, next(s), rest).0
    {
      assert (x + rest)[..n] == x && (x + rest)[n..] == rest;
    }
  }

  lemma {:induction false} CounterInverse(c: Cipher, next: Octets -> Octets, s: Octets, p: Octets)
    requires IsCipher(c) && |s| == c.size && KeepsSize(next, c.size)
    ensures var m := Counter(c, next);
            var x := Process(m, s, p).0;
            |x| == |p| && Process(m, s, x).0 == p
    decreases |p|
  {
    if p != [] {
      var n := Chunk(c.size, p);
      assert |next(s)| == c.size && |c.enc(s)| == c.size;
      hide Process, IsCipher, KeepsSize, Xor;
      CounterSteps(c, next, s, p);
      CounterInverse(c, next, next(s), p[n..]);
      assert p[..n] + p[n..] == p;
    }
  }

  /** Cipher block chaining: encrypted under one split, decrypted under any other, the message comes back. */
  lemma CbcAnySplit(c: Cipher, iv: Octets, parts: seq<Octets>, received: seq<Octets>)
    requires IsCipher(c) && |iv| == c.size
    requires Legal(c.size, parts) && Legal(c.size, received) && |Concat(parts)| % c.size == 0
    requires Concat(received) == ProcessParts(CbcEncryption(c), iv, parts).0
    ensures ProcessParts(CbcDecryption(c), iv, received).0 == Concat(parts)
  {
    PartsAreWhole(CbcEncryption(c), iv, parts);
    PartsAreWhole(CbcDecryption(c), iv, received);
    CbcInverse(c, iv, Concat(parts));
  }

  /** Counter mode: the same, with no condition on the length of the message. */
  lemma CounterAnySplit(c: Cipher, next: Octets -> Octets, iv: Octets, parts: seq<Octets>, received: seq<Octets>)
    requires IsCipher(c) && |iv| == c.size && KeepsSize(next, c.size)
    requires Legal(c.size, parts) && Legal(c.size, received)
    requires Concat(received) == ProcessParts(Counter(c, next), iv, parts).0
    ensures ProcessParts(Counter(c, next), iv, received).0 == Concat(parts)
  {
    PartsAreWhole(Counter(c, next), iv, parts);
    PartsAreWhole(Counter(c, next), iv, received);
    CounterInverse(c, next, iv, Concat(parts));
  }
}
