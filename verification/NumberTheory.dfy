/** Modular arithmetic, primes, Fermat's little theorem and the Chinese Remainder Theorem for two
    primes: what the RSA and DSA equations of the asymmetric API rest on. */
module NumberTheory {

  function Pow(b: int, e: nat): (r: int)
    ensures b >= 0 ==> r >= 0
    ensures b > 0 ==> r > 0
  {
    if e == 0 then 1 else b * Pow(b, e - 1)
  }

  ghost predicate IsPrime(p: int) {
    p >= 2 && forall d :: 2 <= d < p ==> p % d != 0
  }

  // ---------------------------------------------------------------- remainders

  lemma Swap(x: int, y: int, z: int)
    ensures (x * y) * z == (x * z) * y
    ensures (x * y) * z == x * (y * z)
  {
  }

  lemma Distribute(x: int, y: int, z: int)
    ensures (x + y) * z == x * z + y * z
    ensures (x - y) * z == x * z - y * z
  {
  }

  lemma Regroup(a: int, b: int, x: int, y: int)
    ensures (a * b) * (x * y) == (a * x) * (b * y)
  {
    Swap(a, b, x * y);
    Swap(b, x, y);
    Swap(a, x, b * y);
    assert b * (x * y) == x * (b * y) by { Swap(x, b, y); }
  }

  lemma ModUnique(q: int, r: int, m: int)
    requires 0 <= r < m
    ensures (q * m + r) % m == r
    ensures (q * m + r) / m == q
  {
    var x := q * m + r;
    var d := x / m - q;
    assert d * m == r - x % m;
    assert d >= 1 ==> d * m >= m;
    assert d <= -1 ==> d * m <= -m;
  }

  lemma ModShift(a: int, k: int, m: int)
    requires m > 0
    ensures (a + k * m) % m == a % m
  {
    assert a + k * m == (a / m + k) * m + a % m;
    ModUnique(a / m + k, a % m, m);
  }

  /** Equal remainders and divisible differences are the same thing. */
  lemma ModEqIff(a: int, b: int, m: int)
    requires m > 0
    ensures a % m == b % m <==> (a - b) % m == 0
  {
    if a % m == b % m {
      assert a - b == 0 + (a / m - b / m) * m;
      ModShift(0, a / m - b / m, m);
    }
    if (a - b) % m == 0 {
      assert a == b + ((a - b) / m) * m;
      ModShift(b, (a - b) / m, m);
    }
  }

  lemma ModMultiple(k: int, m: int)
    requires m > 0
    ensures (k * m) % m == 0
  {
    ModUnique(k, 0, m);
  }

  lemma ModMul(a: int, b: int, m: int)
    requires m > 0
    ensures ((a % m) * b) % m == (a * b) % m
    ensures (b * (a % m)) % m == (b * a) % m
  {
    var q, r := a / m, a % m;
    assert a == q * m + r;
    Swap(q, m, b);
    Distribute(q * m, r, b);
    ModShift(r * b, q * b, m);
  }

  lemma ModMulBoth(a: int, b: int, m: int)
    requires m > 0
    ensures ((a % m) * (b % m)) % m == (a * b) % m
  {
    ModMul(a, b % m, m);
    ModMul(b, a, m);
  }

  /** Congruent factors give congruent products. */
  lemma ModMulCong(a: int, a': int, b: int, b': int, m: int)
    requires m > 0 && a % m == a' % m && b % m == b' % m
    ensures (a * b) % m == (a' * b') % m
  {
    ModMulBoth(a, b, m);
    ModMulBoth(a', b', m);
  }

  lemma ModAddCong(a: int, a': int, b: int, b': int, m: int)
    requires m > 0 && a % m == a' % m && b % m == b' % m
    ensures (a + b) % m == (a' + b') % m
  {
    ModEqIff(a, a', m);
    ModEqIff(b, b', m);
    var i, j := (a - a') / m, (b - b') / m;
    Distribute(i, j, m);
    assert a - a' == i * m && b - b' == j * m;
    ModShift(a' + b', i + j, m);
  }

  lemma ModMod(a: int, m: int)
    requires m > 0
    ensures (a % m) % m == a % m
  {
    ModUnique(0, a % m, m);
  }

  // ---------------------------------------------------------------- powers

  lemma {:induction false} PowAdd(b: int, i: nat, j: nat)
    ensures Pow(b, i + j) == Pow(b, i) * Pow(b, j)
  {
    if i > 0 {
      PowAdd(b, i - 1, j);
      Swap(b, Pow(b, i - 1), Pow(b, j));
    }
  }

  lemma {:induction false} PowMul(b: int, i: nat, j: nat)
    ensures i * j >= 0
    ensures Pow(b, i * j) == Pow(Pow(b, i), j)
  {
    if j == 0 {
      assert i * j == 0;
    } else {
      PowMul(b, i, j - 1);
      assert i * j == i + i * (j - 1);
      PowAdd(b, i, i * (j - 1));
    }
  }

  lemma {:induction false} PowBase(a: int, b: int, e: nat)
    ensures Pow(a * b, e) == Pow(a, e) * Pow(b, e)
  {
    if e > 0 {
      PowBase(a, b, e - 1);
      Regroup(a, b, Pow(a, e - 1), Pow(b, e - 1));
    }
  }

  lemma {:induction false} PowOne(e: nat)
    ensures Pow(1, e) == 1
  {
    if e > 0 { PowOne(e - 1); }
  }

  lemma {:induction false} PowCong(a: int, b: int, e: nat, m: int)
    requires m > 0 && a % m == b % m
    ensures Pow(a, e) % m == Pow(b, e) % m
  {
    if e > 0 {
      PowCong(a, b, e - 1, m);
      ModMulCong(a, b, Pow(a, e - 1), Pow(b, e - 1), m);
    }
  }

  /** When b^n is 1 modulo m, exponents only matter modulo n. */
  lemma PowPeriod(b: int, n: nat, e: nat, m: int)
    requires m > 0 && n > 0 && Pow(b, n) % m == 1 % m
    ensures Pow(b, e) % m == Pow(b, e % n) % m
  {
    var k := e / n;
    assert k >= 0 && e == e % n + n * k;
    PowAdd(b, e % n, n * k);
    PowMul(b, n, k);
    PowCong(Pow(b, n), 1, k, m);
    PowOne(k);
    ModMulCong(Pow(b, e % n), Pow(b, e % n), Pow(Pow(b, n), k), 1, m);
  }

  // ---------------------------------------------------------------- primes

  /** Euclid's lemma, first for a factor already below the prime. */
  lemma {:induction false} EuclidSmall(p: int, a: int, b: int)
    requires IsPrime(p) && 0 < a < p && (a * b) % p == 0
    ensures b % p == 0
    decreases a
  {
    if a == 1 {
      assert a * b == b;
    } else {
      var q, r := p / a, p % a;
      assert 0 < r < a;
      var k := a * b / p;
      assert a * b == k * p;
      assert r * b == (b - q * k) * p by {
        Distribute(p, q * a, b);
        Swap(q, a, b);
        Swap(q, k, p);
        Distribute(b, q * k, p);
      }
      ModMultiple(b - q * k, p);
      EuclidSmall(p, r, b);
    }
  }

  lemma Euclid(p: int, a: int, b: int)
    requires IsPrime(p) && (a * b) % p == 0
    ensures a % p == 0 || b % p == 0
  {
    if a % p != 0 {
      ModMul(a, b, p);
      EuclidSmall(p, a % p, b);
    }
  }

  lemma {:induction false} EuclidPow(p: int, a: int, e: nat)
    requires IsPrime(p) && a % p != 0
    ensures Pow(a, e) % p != 0
  {
    if e == 0 {
      ModUnique(0, 1, p);
    } else {
      EuclidPow(p, a, e - 1);
      if (a * Pow(a, e - 1)) % p == 0 {
        Euclid(p, a, Pow(a, e - 1));
      }
    }
  }

  /** A factor prime to p cancels on both sides of a congruence. */
  lemma Cancel(p: int, c: int, a: int, b: int)
    requires IsPrime(p) && c % p != 0 && (c * a) % p == (c * b) % p
    ensures a % p == b % p
  {
    ModEqIff(c * a, c * b, p);
    assert c * a - c * b == c * (a - b);
    Euclid(p, c, a - b);
    ModEqIff(a, b, p);
  }

  /** Congruent modulo two distinct primes means congruent modulo their product. */
  lemma TwoPrimes(p: int, q: int, a: int, b: int)
    requires IsPrime(p) && IsPrime(q) && p != q
    requires a % p == b % p && a % q == b % q
    ensures p * q > 0
    ensures a % (p * q) == b % (p * q)
  {
    ModEqIff(a, b, p);
    ModEqIff(a, b, q);
    var x := a - b;
    var k := x / p;
    assert x == p * k;
    assert p % q != 0 by {
      if q > p { ModUnique(0, p, q); }
    }
    Euclid(q, p, k);
    var j := k / q;
    assert x == j * (p * q) by {
      assert k == q * j;
      assert p * (q * j) == j * (p * q);
    }
    ModMultiple(j, p * q);
    ModEqIff(a, b, p * q);
  }

  // ---------------------------------------------------------------- Fermat's little theorem

  lemma Member<T>(s: set<T>) returns (x: T)
    requires s != {}
    ensures x in s
  {
    x :| x in s;
  }

  lemma Nonempty(s: set<int>)
    requires s != {}
    ensures exists x :: x in s
  {
    var x := Member(s);
  }

  /** The product of a finite set of integers. */
  ghost function Product(s: set<int>): int {
    if s == {} then 1 else
      Nonempty(s);
      var x :| x in s;
      x * Product(s - {x})
  }

  /** Any member can be taken out of the product first. */
  lemma {:induction false} ProductRemove(s: set<int>, x: int)
    requires x in s
    ensures Product(s) == x * Product(s - {x})
  {
    var y :| y in s && Product(s) == y * Product(s - {y});
    if y != x {
      ProductRemove(s - {y}, x);
      ProductRemove(s - {x}, y);
      assert s - {y} - {x} == s - {x} - {y};
      var t := Product(s - {x} - {y});
      Swap(x, y, t);
      Swap(y, x, t);
    }
  }

  function Id(x: int): int { x }

  ghost function Residues(p: int): set<int> {
    set x: int {:trigger Id(x)} | 1 <= x < p && Id(x) == x
  }

  ghost function Scaled(s: set<int>, a: int, p: int): set<int>
    requires p > 0
  {
    set x | x in s :: (a * x) % p
  }

  /** Multiplication by a unit keeps distinct residues apart. */
  lemma ScaledApart(x: int, z: int, a: int, p: int)
    requires IsPrime(p) && a % p != 0 && x in Residues(p) && z in Residues(p)
    requires (a * x) % p == (a * z) % p
    ensures x == z
  {
    Cancel(p, a, x, z);
    ModUnique(0, x, p);
    ModUnique(0, z, p);
  }

  lemma ScaledRemove(s: set<int>, x: int, a: int, p: int)
    requires IsPrime(p) && a % p != 0 && s <= Residues(p) && x in s
    ensures var y := (a * x) % p;
            y in Scaled(s, a, p) && Scaled(s - {x}, a, p) == Scaled(s, a, p) - {y}
  {
    var y := (a * x) % p;
    forall z | z in s - {x}
      ensures (a * z) % p != y
    {
      if (a * z) % p == y { ScaledApart(x, z, a, p); }
    }
    forall w | w in Scaled(s, a, p) && w != y
      ensures w in Scaled(s - {x}, a, p)
    {
      var z :| z in s && (a * z) % p == w;
      assert z in s - {x};
    }
  }

  /** Multiplying every residue of s by a keeps their number and multiplies the product by a^|s|. */
  lemma {:induction false} ScaledProduct(s: set<int>, a: int, p: int)
    requires IsPrime(p) && a % p != 0 && s <= Residues(p)
    ensures |Scaled(s, a, p)| == |s|
    ensures Product(Scaled(s, a, p)) % p == (Pow(a, |s|) * Product(s)) % p
    decreases s
  {
    if s == {} {
      assert Scaled(s, a, p) == {};
    } else {
      var x := Member(s);
      var s', y := s - {x}, (a * x) % p;
      ScaledProduct(s', a, p);
      ScaledRemove(s, x, a, p);
      ProductRemove(Scaled(s, a, p), y);
      ProductRemove(s, x);
      ScaledStep(a, x, Pow(a, |s'|), Product(s'), Product(Scaled(s', a, p)), p);
    }
  }

  lemma ScaledStep(a: int, x: int, u: int, v: int, w: int, p: int)
    requires p > 0 && w % p == (u * v) % p
    ensures (((a * x) % p) * w) % p == ((a * u) * (x * v)) % p
  {
    ModMod(a * x, p);
    ModMulCong((a * x) % p, a * x, w, u * v, p);
    Regroup(a, x, u, v);
  }

  lemma {:induction false} ProductUnit(s: set<int>, p: int)
    requires IsPrime(p) && s <= Residues(p)
    ensures Product(s) % p != 0
  {
    if s == {} {
      ModUnique(0, 1, p);
    } else {
      var x := Member(s);
      ProductRemove(s, x);
      ProductUnit(s - {x}, p);
      ModUnique(0, x, p);
      if (x * Product(s - {x})) % p == 0 {
        Euclid(p, x, Product(s - {x}));
      }
    }
  }

  lemma {:induction false} ResiduesSize(p: int)
    requires p >= 1
    ensures |Residues(p)| == p - 1
  {
    if p == 1 {
      assert Residues(p) == {};
    } else {
      ResiduesSize(p - 1);
      assert Residues(p) == Residues(p - 1) + {p - 1};
    }
  }

  lemma SubsetSameSize<T>(a: set<T>, b: set<T>)
    requires a <= b && |a| == |b|
    ensures a == b
  {
    assert |b - a| == |b| - |a|;
    assert b - a == {};
  }

  lemma ScaledResidues(a: int, p: int)
    requires IsPrime(p) && a % p != 0
    ensures Scaled(Residues(p), a, p) == Residues(p)
  {
    var s := Residues(p);
    var t := Scaled(s, a, p);
    forall y | y in t
      ensures y in s
    {
      var x :| x in s && (a * x) % p == y;
      ModUnique(0, x, p);
      if y == 0 { Euclid(p, a, x); }
      assert Id(y) == y;
    }
    ScaledProduct(s, a, p);
    SubsetSameSize(t, s);
  }

  /** Fermat's little theorem. */
  lemma Fermat(p: int, a: int)
    requires IsPrime(p) && a % p != 0
    ensures Pow(a, p - 1) % p == 1
  {
    var s := Residues(p);
    ResiduesSize(p);
    ScaledResidues(a, p);
    ScaledProduct(s, a, p);
    ProductUnit(s, p);
    assert Product(s) * Pow(a, p - 1) == Pow(a, p - 1) * Product(s);
    Cancel(p, Product(s), Pow(a, p - 1), 1);
    ModUnique(0, 1, p);
  }

  // ---------------------------------------------------------------- inverses modulo a prime

  ghost predicate IsInverse(w: int, a: int, p: int) {
    0 <= w < p && (a * w) % p == 1
  }

  /** (1/a) mod p; by Fermat it is a^(p-2) mod p. */
  ghost function Inverse(a: int, p: int): (w: int)
    requires IsPrime(p) && a % p != 0
    ensures IsInverse(w, a, p)
  {
    Fermat(p, a);
    ModMul(Pow(a, p - 2), a, p);
    Pow(a, p - 2) % p
  }

  /** Whatever the modulus, a number has at most one inverse below it. */
  lemma InverseUnique(w: int, v: int, a: int, m: int)
    requires IsInverse(w, a, m) && IsInverse(v, a, m)
    ensures w == v
  {
    assert m != 1;
    ModUnique(0, 1, m);
    ModUnique(0, w, m);
    ModUnique(0, v, m);
    ModMulCong(a * w, 1, v, v, m);
    ModMulCong(w, w, a * v, 1, m);
    assert (a * w) * v == w * (a * v) by {
      Swap(a, w, v);
      assert (a * v) * w == w * (a * v);
    }
  }
}
