/** The RSA primitives for both private key representations, and the driver's checks around them. */
module Rsa {
  import opened NumberTheory
  import opened LargeNumber
  import opened Types

  datatype PublicKey = PublicKey(n: nat, e: nat)

  datatype PrivateKey =
    | Rep1(n: nat, d: nat)
    | Rep2(p: nat, q: nat, dP: nat, dQ: nat, qInv: nat)

  function Gcd(a: nat, b: nat): (g: nat)
    requires a > 0 || b > 0
    ensures g > 0 && a % g == 0 && b % g == 0
    decreases b
  {
    if b == 0 then a else
      var g := Gcd(b, a % b);
      GcdStep(a, b, g);
      g
  }

  lemma GcdStep(a: nat, b: nat, g: nat)
    requires b > 0 && g > 0 && b % g == 0 && (a % b) % g == 0
    ensures a % g == 0
  {
    var k, j := b / g, (a % b) / g;
    assert a == (a / b * k + j) * g by {
      assert a == a / b * b + a % b;
      Swap(a / b, k, g);
      Distribute(a / b * k, j, g);
    }
    ModMultiple(a / b * k + j, g);
  }

  function Lcm(a: nat, b: nat): nat
    requires a > 0 && b > 0
  {
    a / Gcd(a, b) * b
  }

  lemma LcmMultiple(a: nat, b: nat)
    requires a > 0 && b > 0
    ensures Lcm(a, b) > 0 && Lcm(a, b) % a == 0 && Lcm(a, b) % b == 0
  {
    var g := Gcd(a, b);
    var i, j := a / g, b / g;
    assert a == i * g && b == j * g;
    assert i > 0;
    assert i * b == j * a by {
      Swap(i, j, g);
      Swap(j, i, g);
    }
    ModMultiple(i, b);
    ModMultiple(j, a);
    assert i * b > 0;
  }

  /** The greatest common divisor as a combination of the two numbers. */
  lemma {:induction false} Bezout(a: nat, b: nat) returns (u: int, v: int)
    requires a > 0 || b > 0
    ensures u * a + v * b == Gcd(a, b)
    decreases b
  {
    if b == 0 {
      u, v := 1, 0;
    } else {
      var u', v' := Bezout(b, a % b);
      u, v := v', u' - a / b * v';
      assert Gcd(a, b) == Gcd(b, a % b);
      hide Gcd;
      BezoutStep(a / b, a % b, b, u', v');
      assert a == a / b * b + a % b;
    }
  }

  lemma BezoutStep(k: int, r: int, b: int, u: int, v: int)
    ensures v * (k * b + r) + (u - k * v) * b == u * b + v * r
  {
    Swap(k, v, b);
    Swap(v, k, b);
    Distribute(u, k * v, b);
    assert v * (k * b + r) == v * (k * b) + v * r by { Distribute(k * b, r, v); }
  }

  /** Every common multiple is a multiple of the least one. */
  lemma LcmDivides(a: nat, b: nat, m: int)
    requires a > 0 && b > 0 && m % a == 0 && m % b == 0
    ensures Lcm(a, b) > 0 && m % Lcm(a, b) == 0
  {
    LcmMultiple(a, b);
    var g, L := Gcd(a, b), Lcm(a, b);
    var u, v := Bezout(a, b);
    var x, y := m / a, m / b;
    assert a == a / g * g;
    hide Gcd, Lcm;
    LcmTimesGcd(a, b, g, L);
    Combination(a, b, g, L, u, v, x, y, m);
    ModMultiple(u * y + v * x, L);
  }

  lemma LcmTimesGcd(a: nat, b: nat, g: nat, L: nat)
    requires a > 0 && b > 0 && g == Gcd(a, b) && L == Lcm(a, b)
    ensures L * g == a * b
  {
    Swap(a / g, b, g);
  }

  lemma Combination(a: int, b: int, g: int, L: int, u: int, v: int, x: int, y: int, m: int)
    requires g > 0 && L * g == a * b && u * a + v * b == g && m == x * a && m == y * b
    ensures m == (u * y + v * x) * L
  {
    var k := u * y + v * x;
    assert m * g == (u * a) * m + (v * b) * m by { Distribute(u * a, v * b, m); }
    assert (u * a) * (y * b) == (u * y) * (a * b) by { Regroup(u, a, y, b); }
    assert (v * b) * (x * a) == (v * x) * (b * a) by { Regroup(v, b, x, a); }
    assert m * g == k * (L * g) by { Distribute(u * y, v * x, a * b); }
    Swap(k, L, g);
    CancelFactor(m, k * L, g);
  }

  lemma CancelFactor(x: int, y: int, g: int)
    requires g > 0 && x * g == y * g
    ensures x == y
  {
    Distribute(x, y, g);
    assert (x - y) * g == 0;
  }

  // ---------------------------------------------------------------- primitives

  function Encrypt(key: PublicKey, m: nat): nat
    requires key.n > 0
  {
    Pow(m, key.e) % key.n
  }

  /** Decryption with either representation: one exponentiation modulo n, or two smaller ones
      recombined by the Chinese Remainder Theorem. */
  function Decrypt(key: PrivateKey, c: nat): int
    requires key.Rep1? ==> key.n > 0
    requires key.Rep2? ==> key.p > 0 && key.q > 0
  {
    match key
    case Rep1(n, d) => Pow(c, d) % n
    case Rep2(p, q, dP, dQ, qInv) =>
      var m1, m2 := Pow(c, dP) % p, Pow(c, dQ) % q;
      var h := ((m1 - m2) * qInv) % p;
      m2 + q * h
  }

  /** The second representation of a key whose private exponent is d. */
  ghost function Representation2(p: nat, q: nat, d: nat): PrivateKey
    requires IsPrime(p) && IsPrime(q) && p != q
  {
    DistinctPrimes(q, p);
    Rep2(p, q, d % (p - 1), d % (q - 1), Inverse(q, p))
  }

  /** What key generation promises: distinct primes and e, d inverse modulo lcm(p-1, q-1). */
  ghost predicate KeyPair(p: nat, q: nat, e: nat, d: nat) {
    && IsPrime(p) && IsPrime(q) && p != q
    && e * d % Lcm(p - 1, q - 1) == 1 % Lcm(p - 1, q - 1)
  }

  /** Which is to say that e and d are inverse modulo either prime less one. */
  lemma KeyPairIff(p: nat, q: nat, e: nat, d: nat)
    ensures KeyPair(p, q, e, d) <==>
            && IsPrime(p) && IsPrime(q) && p != q
            && e * d % (p - 1) == 1 % (p - 1) && e * d % (q - 1) == 1 % (q - 1)
  {
    if IsPrime(p) && IsPrime(q) && p != q {
      var a, b, x := p - 1, q - 1, e * d;
      hide IsPrime, Lcm;
      LcmMultiple(a, b);
      var L := Lcm(a, b);
      if x % L == 1 % L {
        ModThrough(x, L, a);
        ModThrough(x, L, b);
      }
      if x % a == 1 % a && x % b == 1 % b {
        ModEqIff(x, 1, a);
        ModEqIff(x, 1, b);
        LcmDivides(a, b, x - 1);
        ModEqIff(x, 1, L);
      }
    }
  }

  /** Encryption multiplies up e factors m modulo n, and decryption with the first representation d factors c. */
  lemma PrimitiveSteps(n: nat, x: nat, m: nat)
    requires n > 0
    ensures Encrypt(PublicKey(n, 0), m) == 1 % n
    ensures Encrypt(PublicKey(n, x + 1), m) == m * Encrypt(PublicKey(n, x), m) % n
    ensures Decrypt(Rep1(n, x), m) == Encrypt(PublicKey(n, x), m)
  {
    ModMul(Pow(m, x), m, n);
  }

  /** Decryption with the second: the only number below p q that c^dP gives modulo p and c^dQ modulo q. */
  lemma SecondRepresentation(p: nat, q: nat, dP: nat, dQ: nat, qInv: nat, c: nat, r: int)
    requires IsPrime(p) && IsPrime(q) && p != q && (q * qInv) % p == 1
    ensures Decrypt(Rep2(p, q, dP, dQ, qInv), c) == r <==>
            && 0 <= r < p * q
            && r % p == Encrypt(PublicKey(p, dP), c) && r % q == Encrypt(PublicKey(q, dQ), c)
  {
    var m1, m2, m := Pow(c, dP) % p, Pow(c, dQ) % q, Decrypt(Rep2(p, q, dP, dQ, qInv), c);
    Recombine(p, q, m1, m2, qInv);
    if 0 <= r < p * q && r % p == m1 && r % q == m2 {
      TwoPrimes(p, q, r, m);
      ModUnique(0, r, p * q);
      ModUnique(0, m, p * q);
    }
  }

  lemma DistinctPrimes(p: nat, q: nat)
    requires IsPrime(p) && IsPrime(q) && p != q
    ensures p % q != 0
  {
    if q > p { ModUnique(0, p, q); }
  }

  // ---------------------------------------------------------------- correctness modulo one prime

  lemma ModThrough(x: nat, L: nat, a: nat)
    requires a > 0 && L > 0 && L % a == 0 && x % L == 1 % L
    ensures x % a == 1 % a
  {
    ModEqIff(x, 1, L);
    var k, j := (x - 1) / L, L / a;
    assert x - 1 == k * (j * a);
    Swap(k, j, a);
    ModMultiple(k * j, a);
    ModEqIff(x, 1, a);
  }

  lemma {:induction false} PowZero(a: int, e: nat, p: int)
    requires p > 0 && a % p == 0 && e > 0
    ensures Pow(a, e) % p == 0
  {
    ModMulCong(a, 0, Pow(a, e - 1), Pow(a, e - 1), p);
  }

  lemma FermatPeriod(p: int, c: int, d: nat)
    requires IsPrime(p) && c % p != 0
    ensures Pow(c, d) % p == Pow(c, d % (p - 1)) % p
  {
    Fermat(p, c);
    assert 1 % p == 1 by { ModUnique(0, 1, p); }
    PowPeriod(c, p - 1, d, p);
  }

  /** Exponents may be reduced modulo p - 1, for multiples of p too as long as neither is zero. */
  lemma ReduceExponent(c: int, d: nat, p: int)
    requires IsPrime(p) && (c % p == 0 ==> d % (p - 1) != 0)
    ensures Pow(c, d) % p == Pow(c, d % (p - 1)) % p
  {
    if c % p == 0 {
      assert d > 0;
      PowZero(c, d, p);
      PowZero(c, d % (p - 1), p);
    } else {
      FermatPeriod(p, c, d);
    }
  }

  lemma PowPrimeIdentity(m: int, x: nat, p: int)
    requires IsPrime(p) && x > 0 && x % (p - 1) == 1 % (p - 1)
    ensures Pow(m, x) % p == m % p
  {
    assert Pow(m, 1) == m;
    hide Pow, IsPrime;
    if m % p == 0 {
      PowZero(m, x, p);
    } else {
      FermatPeriod(p, m, x);
      FermatPeriod(p, m, 1);
    }
  }

  lemma ExponentsPositive(p: nat, q: nat, e: nat, d: nat)
    requires KeyPair(p, q, e, d)
    ensures e * d > 0 && e > 0 && d > 0
  {
    var L := Lcm(p - 1, q - 1);
    LcmMultiple(p - 1, q - 1);
    var r := Max(p, q) - 1;
    ModSmall(L, r);
    ModUnique(0, 1, L);
    assert e * d != 0;
  }

  lemma ModSmall(L: int, r: int)
    requires L > 0 && r >= 2 && L % r == 0
    ensures L >= 2
  {
    ModUnique(0, 1, r);
  }

  lemma ProductPositive(p: int, q: int)
    requires p > 1 && q > 1
    ensures p * q > p && p * q > q
  {
  }

  /** m^(ed) and m agree modulo n. */
  lemma RsaIdentity(p: nat, q: nat, e: nat, d: nat, m: int)
    requires KeyPair(p, q, e, d)
    ensures p * q > 0 && e * d >= 0
    ensures Pow(m, e * d) % (p * q) == m % (p * q)
  {
    ProductPositive(p, q);
    LcmMultiple(p - 1, q - 1);
    var L := Lcm(p - 1, q - 1);
    ModThrough(e * d, L, p - 1);
    ModThrough(e * d, L, q - 1);
    ExponentsPositive(p, q, e, d);
    PowPrimeIdentity(m, e * d, p);
    PowPrimeIdentity(m, e * d, q);
    TwoPrimes(p, q, Pow(m, e * d), m);
  }

  // ---------------------------------------------------------------- main results

  /** Decrypting an encryption returns the message, and verifying a signature returns what was
      signed, for every value below the modulus. */
  lemma DecryptEncrypt(p: nat, q: nat, e: nat, d: nat, m: nat)
    requires KeyPair(p, q, e, d) && m < p * q
    ensures Decrypt(Rep1(p * q, d), Encrypt(PublicKey(p * q, e), m)) == m
    ensures Encrypt(PublicKey(p * q, e), Decrypt(Rep1(p * q, d), m)) == m
  {
    var n := p * q;
    ModMod(Pow(m, e), n);
    PowCong(Pow(m, e) % n, Pow(m, e), d, n);
    ModMod(Pow(m, d), n);
    PowCong(Pow(m, d) % n, Pow(m, d), e, n);
    PowMul(m, e, d);
    PowMul(m, d, e);
    RsaIdentity(p, q, e, d, m);
    ModUnique(0, m, n);
  }

  /** The value the recombination computes: below n, m1 modulo p and m2 modulo q. */
  lemma Recombine(p: nat, q: nat, m1: nat, m2: nat, qInv: nat)
    requires IsPrime(p) && m1 < p && m2 < q && (q * qInv) % p == 1
    ensures var h := ((m1 - m2) * qInv) % p;
            && 0 <= m2 + q * h < p * q
            && (m2 + q * h) % p == m1 && (m2 + q * h) % q == m2
  {
    var x := (m1 - m2) * qInv;
    var h := x % p;
    MulMonotone(h, p - 1, q);
    Distribute(p, 1, q);
    ModShift(m2, h, q);
    ModUnique(0, m2, q);
    // q*h = (m1-m2) * (q*qInv) = m1 - m2 modulo p
    ModMul(x, q, p);
    Swap(m1 - m2, qInv, q);
    ModUnique(0, 1, p);
    ModMulCong(m1 - m2, m1 - m2, q * qInv, 1, p);
    ModAddCong(m2, m2, q * h, m1 - m2, p);
    ModUnique(0, m1, p);
  }

  /** The two representations compute the same function on every input below the modulus, also
      on the multiples of p and q, as long as neither reduced exponent is zero. */
  lemma RepresentationsAgree(p: nat, q: nat, d: nat, c: nat)
    requires IsPrime(p) && IsPrime(q) && p != q
    requires d % (p - 1) != 0 && d % (q - 1) != 0
    ensures p * q > 0
    ensures Decrypt(Representation2(p, q, d), c) == Decrypt(Rep1(p * q, d), c)
  {
    ProductPositive(p, q);
    var m1, m2 := Pow(c, d % (p - 1)) % p, Pow(c, d % (q - 1)) % q;
    DistinctPrimes(q, p);
    var r := Decrypt(Representation2(p, q, d), c);
    Recombine(p, q, m1, m2, Inverse(q, p));
    ReduceExponent(c, d, p);
    ReduceExponent(c, d, q);
    TwoPrimes(p, q, r, Pow(c, d));
    ModUnique(0, r, p * q);
  }

  /** p itself separates the representations when p - 1 divides d. */
  lemma RepresentationsDiffer(p: nat, q: nat, d: nat)
    requires IsPrime(p) && IsPrime(q) && p != q && d > 0
    requires d % (p - 1) == 0 || d % (q - 1) == 0
    ensures p * q > 0
    ensures exists c :: 0 <= c < p * q &&
              Decrypt(Representation2(p, q, d), c) != Decrypt(Rep1(p * q, d), c)
  {
    ProductPositive(p, q);
    DistinctPrimes(q, p);
    var key := Representation2(p, q, d);
    var s := if d % (p - 1) == 0 then p else q;
    Recombine(p, q, Pow(s, key.dP) % p, Pow(s, key.dQ) % q, key.qInv);
    assert Decrypt(key, s) % s == 1 by {
      assert Pow(s, 0) == 1;
      ModUnique(0, 1, s);
    }
    assert Decrypt(Rep1(p * q, d), s) % s == 0 by {
      ModMultiple(1, s);
      PowZero(s, d, s);
      ReduceThrough(Pow(s, d), if s == p then q else p, s);
    }
    assert 0 <= s < p * q;
  }

  lemma ReduceThrough(x: int, a: int, s: int)
    requires a > 0 && s > 0 && x % s == 0
    ensures a * s > 0 && (x % (a * s)) % s == 0
  {
    MulAtLeast(a, s);
    var k := x / (a * s);
    assert x % (a * s) == x + (-k * a) * s by {
      assert x == k * (a * s) + x % (a * s);
      Swap(k, a, s);
    }
    ModShift(x, -k * a, s);
  }

  /** The faster representation is exact for every ciphertext if and only if neither p - 1 nor
      q - 1 divides the private exponent. */
  lemma RepresentationsAgreeIff(p: nat, q: nat, d: nat)
    requires IsPrime(p) && IsPrime(q) && p != q && d > 0
    ensures p * q > 0
    ensures (forall c :: 0 <= c < p * q ==>
               Decrypt(Representation2(p, q, d), c) == Decrypt(Rep1(p * q, d), c)) <==>
            d % (p - 1) != 0 && d % (q - 1) != 0
  {
    ProductPositive(p, q);
    if d % (p - 1) != 0 && d % (q - 1) != 0 {
      forall c: nat | c < p * q
        ensures Decrypt(Representation2(p, q, d), c) == Decrypt(Rep1(p * q, d), c)
      {
        RepresentationsAgree(p, q, d, c);
      }
    } else {
      RepresentationsDiffer(p, q, d);
    }
  }

  /** A generated key with odd primes meets that condition. */
  lemma GeneratedExponents(p: nat, q: nat, e: nat, d: nat)
    requires KeyPair(p, q, e, d) && p > 2 && q > 2
    ensures d % (p - 1) != 0 && d % (q - 1) != 0
  {
    LcmMultiple(p - 1, q - 1);
    var L := Lcm(p - 1, q - 1);
    forall a | a == p - 1 || a == q - 1
      ensures d % a != 0
    {
      ModThrough(e * d, L, a);
      ModUnique(0, 1, a);
      ModMul(d, e, a);
    }
  }

  /** Both representations of every generated key with odd primes undo encryption. */
  lemma GeneratedKeyWorks(p: nat, q: nat, e: nat, d: nat, m: nat)
    requires KeyPair(p, q, e, d) && p > 2 && q > 2 && m < p * q
    ensures var c := Encrypt(PublicKey(p * q, e), m);
            && Decrypt(Rep1(p * q, d), c) == m
            && Decrypt(Representation2(p, q, d), c) == m
  {
    DecryptEncrypt(p, q, e, d, m);
    GeneratedExponents(p, q, e, d);
    RepresentationsAgree(p, q, d, Encrypt(PublicKey(p * q, e), m));
  }

  // ---------------------------------------------------------------- the driver's checks

  /** Operation sizes in octets: 512, 1024, 1536, 2048, 3072 and 4096 bits. */
  predicate ValidSize(k: nat) {
    k == 64 || k == 128 || k == 192 || k == 256 || k == 384 || k == 512
  }

  /** A modulus of size k: odd, and one of its two most significant bits is set. */
  predicate ModulusOfSize(n: nat, k: nat) {
    ValidSize(k) && n % 2 == 1 && 64 * Pow(256, k - 1) <= n < Pow(256, k)
  }

  /** A prime of size k: odd, with its most significant bit set. */
  predicate FactorOfSize(p: nat, k: nat) {
    k > 0 && p % 2 == 1 && 128 * Pow(256, k - 1) <= p < Pow(256, k)
  }

  ghost predicate EncryptAccepted(n: nat, e: nat, m: nat, k: nat, outLen: nat) {
    ModulusOfSize(n, k) && e % 2 == 1 && e < Pow(256, k) && 0 < m < n && outLen >= k
  }

  lemma LowBit(s: seq<byte>)
    requires s != []
    ensures s[|s| - 1] % 2 == Value(s) % 2
  {
  }

  lemma TopOctet(t: seq<byte>, bound: nat)
    requires t != [] && bound < 256
    ensures t[0] >= bound <==> Value(t) >= bound * Pow(256, |t| - 1)
  {
    var P := Pow(256, |t| - 1);
    ValueFront(t);
    ValueBound(t[1..]);
    if t[0] >= bound {
      MulMonotone(bound, t[0], P);
    } else {
      MulMonotone(t[0] + 1, bound, P);
      Distribute(t[0], 1, P);
    }
  }

  /** The size of an operation is fixed by the modulus. */
  lemma {:induction false} SizeUnique(n: nat, k: nat, j: nat)
    requires n < Pow(256, k) && j > 0 && Pow(256, j - 1) <= n
    ensures j <= k
  {
    if j > k { PowMonotone(256, k, j - 1); }
  }

  /** The operation size of a modulus, and whether the modulus is acceptable at that size. */
  method ModulusCheck(n: seq<byte>) returns (k: nat, ok: bool)
    requires n != []
    ensures ok <==> ModulusOfSize(Value(n), k)
    ensures ok <==> k in {64, 128, 192, 256, 384, 512} && Value(n) % 2 == 1 && 64 * Pow(256, k - 1) <= Value(n) < Pow(256, k)
    ensures forall j :: ModulusOfSize(Value(n), j) ==> j == k
  {
    k := GetMinBytes(n);
    forall j | ModulusOfSize(Value(n), j)
      ensures j == k
    {
      SizeUnique(Value(n), j, k);
      SizeUnique(Value(n), k, j);
    }
    if !ValidSize(k) {
      return k, false;
    }
    TopOctet(n[|n| - k..], 64);
    LowBit(n);
    ok := n[|n| - k] >= 64 && n[|n| - 1] % 2 == 1;
  }

  /** Whether a number fits into k octets once its leading zeros are dropped. */
  method FitsSize(s: seq<byte>, k: nat) returns (ok: bool)
    ensures ok <==> Value(s) < Pow(256, k)
  {
    var len := GetMinBytes(s);
    SizeAtMost(len, Value(s), k);
    ok := len <= k;
  }

  /** 0 < input < n */
  method InputInRange(input: seq<byte>, n: seq<byte>) returns (ok: bool)
    requires input != []
    ensures ok <==> 0 < Value(input) < Value(n)
  {
    var zero := CompareZero(input, 0);
    if zero == 0 {
      return false;
    }
    var order := Compare(input, 0, n, 0);
    CompareSignExact(input, 0, n, 0);
    ok := order < 0;
  }

  /** The checks made before an encryption, in the driver's order. */
  method EncryptCheck(n: seq<byte>, e: seq<byte>, input: seq<byte>, outLen: nat) returns (k: nat, ok: bool)
    requires n != []
    ensures forall j :: ModulusOfSize(Value(n), j) ==> j == k
    ensures ok <==> e != [] && input != [] && EncryptAccepted(Value(n), Value(e), Value(input), k, outLen)
    ensures ok <==> && k in {64, 128, 192, 256, 384, 512} && outLen >= k
                    && Value(n) % 2 == 1 && 64 * Pow(256, k - 1) <= Value(n) < Pow(256, k)
                    && e != [] && Value(e) % 2 == 1 && Value(e) < Pow(256, k)
                    && input != [] && 0 < Value(input) < Value(n)
  {
    k, ok := ModulusCheck(n);
    if !ok || e == [] {
      return k, false;
    }
    LowBit(e);
    ok := FitsSize(e, k);
    if !ok || e[|e| - 1] % 2 == 0 || input == [] {
      return k, false;
    }
    ok := FitsSize(input, k);
    if !ok || outLen < k {
      return k, false;
    }
    ok := InputInRange(input, n);
  }

  lemma SizeAtMost(len: nat, v: nat, k: nat)
    requires len == 0 <==> v == 0
    requires len > 0 ==> Pow(256, len - 1) <= v < Pow(256, len)
    ensures len <= k <==> v < Pow(256, k)
  {
    if len <= k {
      PowMonotone(256, len, k);
    } else {
      PowMonotone(256, k, len - 1);
    }
  }

  /** The standards based check of a second representation. */
  method Type2StdsCheck(p: seq<byte>, q: seq<byte>, dP: seq<byte>, dQ: seq<byte>, qInv: seq<byte>)
    returns (ok: bool)
    requires p != [] && q != [] && dP != [] && dQ != [] && qInv != []
    ensures ok <==>
      && 1 < Value(dP) < Value(p) - 1
      && 1 < Value(dQ) < Value(q) - 1
      && 1 <= Value(qInv) < Value(p)
  {
    var c := CompareZero(dP, -1);
    if c <= 0 { return false; }
    c := Compare(dP, 0, p, -1);
    ComparePredecessor(dP, p);
    if c >= 0 { return false; }
    c := CompareZero(dQ, -1);
    if c <= 0 { return false; }
    c := Compare(dQ, 0, q, -1);
    ComparePredecessor(dQ, q);
    if c >= 0 { return false; }
    c := CompareZero(qInv, 0);
    if c == 0 { return false; }
    c := Compare(qInv, 0, p, 0);
    CompareSignExact(qInv, 0, p, 0);
    ok := c < 0;
  }

  /** The modulus check asks for one of the two top bits, and that is what the product of two
      accepted primes always has. */
  lemma ProductPassesModulusCheck(p: nat, q: nat, k: nat)
    requires k in {64, 128, 192, 256, 384, 512} && FactorOfSize(p, k / 2) && FactorOfSize(q, k / 2)
    ensures ModulusOfSize(p * q, k)
  {
    hide Pow, IsPrime;
    var h := k / 2;
    ModMulBoth(p, q, 2);
    MulStrict(p, q, Pow(256, h));
    PowAdd(256, h, h);
    MulBoth(128 * Pow(256, h - 1), p, 128 * Pow(256, h - 1), q);
    HalfSquare(h);
    assert h + h == k;
  }

  /** (128 * 256^(h-1))^2 = 64 * 256^(2h-1) */
  lemma HalfSquare(h: nat)
    requires h > 0
    ensures (128 * Pow(256, h - 1)) * (128 * Pow(256, h - 1)) == 64 * Pow(256, h + h - 1)
  {
    var P := Pow(256, h - 1);
    PowAdd(256, h, h - 1);
    Regroup(128, P, 128, P);
    Swap(256, P, P);
  }

  lemma MulBoth(a: int, b: int, c: int, d: int)
    requires 0 <= a <= b && 0 <= c <= d
    ensures a * c <= b * d
  {
    MulMonotone(a, b, c);
    MulMonotone(c, d, b);
  }

  lemma MulStrict(a: int, b: int, c: int)
    requires 0 <= a < c && 0 <= b < c
    ensures a * b < c * c
  {
    MulMonotone(b, c - 1, a);
    MulMonotone(a, c - 1, c - 1);
    Distribute(c, 1, c - 1);
  }

  /** Two primes that have their top bit can have a product that has not, as 131 and 137 show: asking the modulus for
      its top bit alone would refuse keys. */
  lemma TopBitAloneWouldRefuse()
    ensures exists p, q :: && IsPrime(p) && IsPrime(q) && p != q && FactorOfSize(p, 1) && FactorOfSize(q, 1)
                           && p * q < 128 * 256
  {
    SmallPrime(131);
    SmallPrime(137);
    assert Pow(256, 0) == 1 && Pow(256, 1) == 256;
    assert 131 * 137 < 128 * 256;
  }

  lemma SmallPrime(p: nat)
    requires 12 <= p < 144 && forall d :: 2 <= d < 12 ==> p % d != 0
    ensures IsPrime(p)
  {
    forall d | 2 <= d < p
      ensures p % d != 0
    {
      if p % d == 0 {
        var k := p / d;
        assert p == k * d;
        assert k >= 12 ==> k * d >= 12 * d;
        ModUnique(d, 0, k);
      }
    }
  }

  /** The same at every size a modulus may have, for the least numbers the factor check takes. */
  lemma TopBitAtEverySize(k: nat)
    requires k in {64, 128, 192, 256, 384, 512}
    ensures exists p: nat, q: nat :: && p != q && FactorOfSize(p, k / 2) && FactorOfSize(q, k / 2)
                                     && p * q < 128 * Pow(256, k - 1)
  {
    hide Pow;
    var h := k / 2;
    var P := Pow(256, h - 1);
    LeastFactors(h);
    HalfSquare(h);
    NextToSquare(P);
    assert h + h == k;
    assert FactorOfSize(128 * P + 1, h) && FactorOfSize(128 * P + 3, h);
  }

  lemma LeastFactors(h: nat)
    requires h > 1
    ensures FactorOfSize(128 * Pow(256, h - 1) + 1, h) && FactorOfSize(128 * Pow(256, h - 1) + 3, h)
  {
    var P := Pow(256, h - 1);
    assert Pow(256, h) == 256 * P;
    hide Pow;
    ModUnique(64 * P, 1, 2);
    ModUnique(64 * P + 1, 1, 2);
  }

  lemma NextToSquare(P: nat)
    requires P > 0
    ensures (128 * P + 1) * (128 * P + 3) < 2 * ((128 * P) * (128 * P))
  {
    var a := 128 * P;
    Distribute(a, 1, a + 3);
    Distribute(a, 3, a);
    MulMonotone(128, a, a);
  }

  /** The driver refuses the zero message, but never a ciphertext of an accepted message. */
  lemma CiphertextAccepted(p: nat, q: nat, e: nat, d: nat, m: nat)
    requires KeyPair(p, q, e, d) && 0 < m < p * q
    ensures 0 < Encrypt(PublicKey(p * q, e), m) < p * q
  {
    DecryptEncrypt(p, q, e, d, m);
    ExponentsPositive(p, q, e, d);
    if Encrypt(PublicKey(p * q, e), m) == 0 {
      assert Pow(0, d) == 0;
      ModUnique(0, 0, p * q);
    }
  }

  /** Buffers in, buffers out: an accepted message, encrypted into an output buffer and decrypted
      with either representation of a generated key into a buffer of the message's size, is
      restored octet for octet. */
  lemma BufferRoundTrip(p: nat, q: nat, e: nat, d: nat, input: seq<byte>, k: nat, outLen: nat)
    requires KeyPair(p, q, e, d) && p > 2 && q > 2
    requires EncryptAccepted(p * q, e, Value(input), k, outLen)
    ensures var c := Encode(Encrypt(PublicKey(p * q, e), Value(input)), outLen);
            && c.Some?
            && EncryptAccepted(p * q, e, Value(c.value), k, outLen)
            && Encode(Decrypt(Rep1(p * q, d), Value(c.value)), |input|) == Some(input)
            && Decrypt(Representation2(p, q, d), Value(c.value)) == Decrypt(Rep1(p * q, d), Value(c.value))
  {
    CiphertextAccepted(p, q, e, d, Value(input));
    GeneratedKeyWorks(p, q, e, d, Value(input));
    PowMonotone(256, k, outLen);
    EncodeValue(input);
  }

  /**
   * A second representation in buffers: if its numbers belong to d and it passes the driver's check, it decrypts every
   * ciphertext as the first representation does, whatever the public exponent and whatever leading zeros it carries.
   */
  method CheckedKeyIsExact(p: seq<byte>, q: seq<byte>, dP: seq<byte>, dQ: seq<byte>, qInv: seq<byte>, ghost d: nat)
    returns (ok: bool)
    requires p != [] && q != [] && dP != [] && dQ != [] && qInv != []
    requires IsPrime(Value(p)) && IsPrime(Value(q)) && Value(p) != Value(q)
    requires Value(dP) == d % (Value(p) - 1) && Value(dQ) == d % (Value(q) - 1)
    requires (Value(q) * Value(qInv)) % Value(p) == 1
    ensures Value(p) * Value(q) > 0
    ensures ok ==> forall c: nat {:trigger Pow(c, d)} ::
              Decrypt(Rep2(Value(p), Value(q), Value(dP), Value(dQ), Value(qInv)), c) ==
              Decrypt(Rep1(Value(p) * Value(q), d), c)
  {
    hide Pow, Value;
    ProductPositive(Value(p), Value(q));
    hide IsPrime;
    ok := Type2StdsCheck(p, q, dP, dQ, qInv);
    if ok {
      CheckedIsRepresentation2(Value(p), Value(q), Value(dP), Value(dQ), Value(qInv), d);
      forall c: nat
        ensures Decrypt(Rep2(Value(p), Value(q), Value(dP), Value(dQ), Value(qInv)), c) ==
                Decrypt(Rep1(Value(p) * Value(q), d), c)
      {
        RepresentationsAgree(Value(p), Value(q), d, c);
      }
    }
  }

  /** Of two numbers inverse to one another, both are one or neither is. */
  lemma ExponentOne(e: nat, d: nat, a: nat)
    requires a > 1 && e * d % a == 1
    ensures d % a == 1 <==> e % a == 1
  {
    ModMul(d, e, a);
    ModMul(e, d, a);
  }

  /** What a generated key's numbers are within. */
  lemma GeneratedWithin(p: nat, q: nat, e: nat, d: nat)
    requires KeyPair(p, q, e, d) && p > 2 && q > 2
    ensures 0 < d % (p - 1) < p - 1 && 0 < d % (q - 1) < q - 1
    ensures d % (p - 1) == 1 <==> e % (p - 1) == 1
    ensures d % (q - 1) == 1 <==> e % (q - 1) == 1
    ensures var key := Representation2(p, q, d); 0 < key.qInv < p
  {
    GeneratedExponents(p, q, e, d);
    LcmMultiple(p - 1, q - 1);
    var L := Lcm(p - 1, q - 1);
    hide IsPrime, Pow, Lcm;
    forall a | a == p - 1 || a == q - 1
      ensures d % a == 1 <==> e % a == 1
    {
      ModThrough(e * d, L, a);
      ModUnique(0, 1, a);
      ExponentOne(e, d, a);
    }
    DistinctPrimes(q, p);
    ModUnique(0, 0, p);
  }

  /**
   * The driver's check of a second representation refuses generated keys, and exactly these: where an exponent comes to
   * one, which is where the public exponent is one modulo a prime less one. A public exponent above one and below both
   * primes less one never is.
   */
  method GeneratedKeyAccepted(p: seq<byte>, q: seq<byte>, dP: seq<byte>, dQ: seq<byte>, qInv: seq<byte>,
                              ghost e: nat, ghost d: nat) returns (ok: bool)
    requires p != [] && q != [] && dP != [] && dQ != [] && qInv != []
    requires KeyPair(Value(p), Value(q), e, d) && Value(p) > 2 && Value(q) > 2
    requires Rep2(Value(p), Value(q), Value(dP), Value(dQ), Value(qInv)) == Representation2(Value(p), Value(q), d)
    ensures ok <==> d % (Value(p) - 1) != 1 && d % (Value(q) - 1) != 1
    ensures ok <==> e % (Value(p) - 1) != 1 && e % (Value(q) - 1) != 1
    ensures 1 < e < Value(p) - 1 && e < Value(q) - 1 ==> ok
  {
    hide Pow, Value, IsPrime, KeyPair;
    GeneratedWithin(Value(p), Value(q), e, d);
    ok := Type2StdsCheck(p, q, dP, dQ, qInv);
    if 1 < e < Value(p) - 1 && e < Value(q) - 1 {
      ModUnique(0, e, Value(p) - 1);
      ModUnique(0, e, Value(q) - 1);
    }
  }

  lemma CheckedIsRepresentation2(p: nat, q: nat, dP: nat, dQ: nat, qInv: nat, d: nat)
    requires IsPrime(p) && IsPrime(q) && p != q
    requires dP == d % (p - 1) && dQ == d % (q - 1) && (q * qInv) % p == 1
    requires 1 < dP && 1 < dQ && qInv < p
    ensures Rep2(p, q, dP, dQ, qInv) == Representation2(p, q, d)
    ensures d % (p - 1) != 0 && d % (q - 1) != 0
  {
    DistinctPrimes(q, p);
    InverseUnique(qInv, Inverse(q, p), q, p);
  }

  /** A modulus of k octets: 128, zeros, 1. */
  function SmallModulus(k: nat): seq<byte>
    requires k > 1
  {
    [128] + seq(k - 2, _ => 0) + [1]
  }

  lemma SmallModulusIs(k: nat)
    requires k > 1
    ensures Value(SmallModulus(k)) == 128 * Pow(256, k - 1) + 1 < Pow(256, k) && Value(SmallModulus(k)) % 2 == 1
  {
    var n, z: seq<byte> := SmallModulus(k), seq(k - 2, _ => 0);
    SingleOctets();
    assert Pow(256, k) == 256 * Pow(256, k - 1);
    hide Pow, Value;
    ValueFront(n);
    assert n[1..] == z + [1];
    LeadingZeros(z, [1]);
    ModUnique(64 * Pow(256, k - 1), 1, 2);
  }

  /** At every size: with such a modulus and exponent 3, the message 0 is refused and the message 1 is not. */
  method ZeroMessageRefused(k: nat) returns (zero: bool, one: bool)
    requires k in {64, 128, 192, 256, 384, 512}
    ensures !zero && one
  {
    hide Pow, Value, ModulusOfSize, EncryptAccepted;
    OneAccepted(k);
    var size;
    size, zero := EncryptCheck(SmallModulus(k), [3], [0], k);
    size, one := EncryptCheck(SmallModulus(k), [3], [1], k);
  }

  lemma OneAccepted(k: nat)
    requires ValidSize(k)
    ensures var n := Value(SmallModulus(k));
            && ModulusOfSize(n, k)
            && EncryptAccepted(n, Value([3]), Value([1]), k, k) && !EncryptAccepted(n, Value([3]), Value([0]), k, k)
  {
    SmallModulusIs(k);
    SingleOctets();
    PowMonotone(256, 1, k - 1);
    PowMonotone(256, 1, k);
    hide Pow, Value;
  }

  lemma SingleOctets()
    ensures Value([0]) == 0 && Value([1]) == 1 && Value([3]) == 3 && Pow(256, 1) == 256
  {
    assert [0][..0] == [] && [1][..0] == [] && [3][..0] == [];
  }
}
