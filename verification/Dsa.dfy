/** The DSA equations: parameter generation, signing in one or two calls, and verification. */
module Dsa {
  import opened NumberTheory

  /** A generated value and the protocol status that goes with it, or a refused request. */
  datatype Generated = InvalidParam | Generated(status: bool, value: nat)

  datatype Signature = BadRequest | Signature(status: bool, r: nat, s: nat)

  datatype Verdict = Refused | Verdict(ok: bool)

  // ---------------------------------------------------------------- parameters

  /** p = X - (c - 1) with c = X mod 2q. */
  function CandidateP(X: nat, q: nat): int
    requires q > 0
  {
    X - (X % (2 * q) - 1)
  }

  /** The candidate, zeroed with a false status when it is below 2^(L-1) or fails the limited
      primality test, which is a parameter here. */
  function GenP(X: nat, q: nat, L: nat, limitedTest: nat -> bool): Generated
    requires q > 0 && L > 0
  {
    var p := CandidateP(X, q);
    if p >= Pow(2, L - 1) && limitedTest(p) then Generated(true, p) else Generated(false, 0)
  }

  /** The candidate is odd, congruent to 1 modulo 2q, and the only such number in its window. */
  lemma CandidatePProperties(X: nat, q: nat)
    requires q > 0
    ensures var p := CandidateP(X, q);
            && p % 2 == 1 && p % (2 * q) == 1 && (p - 1) % q == 0
            && X - 2 * q + 2 <= p <= X + 1
    ensures forall p' :: p' % (2 * q) == 1 && X - 2 * q + 2 <= p' <= X + 1 ==> p' == CandidateP(X, q)
  {
    var m, k := 2 * q, X / (2 * q);
    var p := CandidateP(X, q);
    assert p == k * m + 1;
    ModUnique(k, 1, m);
    Swap(k, 2, q);
    ModUnique(k * q, 1, 2);
    assert k * m == (k * q) * 2 by { Swap(k, q, 2); }
    assert p - 1 == (k * 2) * q;
    ModMultiple(k * 2, q);
    forall p' | p' % m == 1 && X - m + 2 <= p' <= X + 1
      ensures p' == p
    {
      SameClass(p', p, m);
    }
  }

  lemma SameClass(a: int, b: int, m: int)
    requires m > 0 && a % m == b % m && -m < a - b < m
    ensures a == b
  {
    ModEqIff(a, b, m);
    var k := (a - b) / m;
    assert a - b == k * m;
    assert k >= 1 ==> k * m >= m;
    assert k <= -1 ==> k * m <= -m;
  }

  /** The documented bound p < X holds exactly when X mod 2q is at least 2. */
  lemma CandidateBelowXIff(X: nat, q: nat)
    requires q > 0
    ensures CandidateP(X, q) < X <==> X % (2 * q) >= 2
  {
  }

  lemma CandidateNotBelowX()
    ensures CandidateP(12, 3) == 13 && CandidateP(13, 3) == 13
  {
  }

  /**
   * Generation succeeds with a number exactly if that is the one in the window of X that is 1 modulo 2q, has its L bits
   * and passes the test; otherwise the status is false and the number zero.
   */
  lemma GenPExactly(X: nat, q: nat, L: nat, limitedTest: nat -> bool, p: nat)
    requires q > 0 && L > 0
    ensures GenP(X, q, L, limitedTest) == Generated(true, p) <==>
            p % (2 * q) == 1 && X - 2 * q + 2 <= p <= X + 1 && p >= Pow(2, L - 1) && limitedTest(p)
    ensures GenP(X, q, L, limitedTest) == Generated(false, 0) ||
            exists p': nat :: GenP(X, q, L, limitedTest) == Generated(true, p')
  {
    hide Pow;
    CandidatePProperties(X, q);
  }

  /** g = h^((p-1)/q) mod p, refused unless 1 < h < p - 1; the status says g != 1. */
  function GenG(p: nat, q: nat, h: nat): Generated
    requires p > 0 && q > 0
  {
    if !(1 < h < p - 1) then InvalidParam else
      var g := Pow(h, (p - 1) / q) % p;
      Generated(g != 1, g)
  }

  function GenY(p: nat, g: nat, x: nat): nat
    requires p > 0
  {
    Pow(g, x) % p
  }

  /** x factors g, multiplied up modulo p. */
  lemma GenYSteps(p: nat, g: nat, x: nat)
    requires p > 0
    ensures GenY(p, g, 0) == 1 % p
    ensures GenY(p, g, x + 1) == g * GenY(p, g, x) % p
  {
    ModMul(Pow(g, x), g, p);
  }

  /** For e with e q = p - 1, generation multiplies up e factors h, and reports whether that is not 1. */
  lemma GenGIsPower(p: nat, q: nat, h: nat, e: nat)
    requires q > 0 && e * q == p - 1
    ensures GenG(p, q, h).InvalidParam? <==> h <= 1 || h >= p - 1
    ensures 1 < h < p - 1 ==> GenG(p, q, h) == Generated(GenY(p, h, e) != 1, GenY(p, h, e))
  {
    ModUnique(e, 0, q);
  }

  /** Domain parameters a signature scheme needs. */
  ghost predicate Domain(p: nat, q: nat, g: nat) {
    && IsPrime(p) && IsPrime(q)
    && 1 < g < p && Pow(g, q) % p == 1
  }

  lemma OneBelow(p: int)
    requires p > 1
    ensures 1 % p == 1
  {
    ModUnique(0, 1, p);
  }

  /** Whenever p and q are prime, q divides p - 1 and generation reports success, the result is
      acceptable and its order is exactly q. */
  lemma GenGMakesDomain(p: nat, q: nat, h: nat)
    requires IsPrime(p) && IsPrime(q) && (p - 1) % q == 0 && 1 < h < p - 1
    ensures var g := GenG(p, q, h);
            && 0 < g.value < p
            && Pow(g.value, q) % p == 1
            && (g.status <==> Domain(p, q, g.value))
            && (g.status ==> forall j :: 0 < j < q ==> Pow(g.value, j) % p != 1)
  {
    var e := (p - 1) / q;
    var g := Pow(h, e) % p;
    assert e * q == p - 1;
    ModUnique(0, h, p);
    Fermat(p, h);
    EuclidPow(p, h, e);
    ModMod(Pow(h, e), p);
    PowCong(g, Pow(h, e), q, p);
    PowMul(h, e, q);
    if g != 1 {
      forall j | 0 < j < q
        ensures Pow(g, j) % p != 1
      {
        if Pow(g, j) % p == 1 { OrderIsPrime(p, q, g, j); }
      }
    }
  }

  /** No smaller power of a generator is 1. */
  lemma OrderIsPrime(p: nat, q: nat, g: nat, j: nat)
    requires IsPrime(q) && p > 1 && 0 <= g < p && Pow(g, q) % p == 1
    requires 0 < j < q && Pow(g, j) % p == 1
    ensures g == 1
  {
    OneBelow(p);
    ModUnique(0, j, q);
    var w := Inverse(j, q);
    PowPeriod(g, q, j * w, p);
    PowMul(g, j, w);
    PowCong(Pow(g, j), 1, w, p);
    PowOne(w);
    assert Pow(g, 1) == g;
    ModUnique(0, g, p);
  }

  /** Parameter generation composes into a usable domain. */
  lemma GenerationComposes(X: nat, q: nat, L: nat, limitedTest: nat -> bool, h: nat)
    requires IsPrime(q) && L > 0
    requires GenP(X, q, L, limitedTest).status
    requires var p := GenP(X, q, L, limitedTest).value;
             IsPrime(p) && 1 < h < p - 1 && GenG(p, q, h).status
    ensures var p := GenP(X, q, L, limitedTest).value;
            p >= Pow(2, L - 1) && Domain(p, q, GenG(p, q, h).value)
  {
    var p := GenP(X, q, L, limitedTest).value;
    CandidatePProperties(X, q);
    GenGMakesDomain(p, q, h);
  }

  // ---------------------------------------------------------------- signing and verifying

  /** r = (g^k mod p) mod q; the status says r != 0. */
  function SignR(p: nat, q: nat, g: nat, k: nat): Generated
    requires p > 0 && q > 0
  {
    if !(0 < k < q && 1 < g < p) then InvalidParam else
      var r := Pow(g, k) % p % q;
      Generated(r != 0, r)
  }

  /** s = (k^-1 (z + x r)) mod q; the status says s != 0. */
  ghost function SignS(q: nat, x: nat, k: nat, r: nat, z: nat): Generated
    requires IsPrime(q)
  {
    if !(0 < k < q && 0 < r < q && 0 < x < q) then InvalidParam else
      ModUnique(0, k, q);
      var s := (Inverse(k, q) * (z + x * r)) % q;
      Generated(s != 0, s)
  }

  ghost function SignRS(p: nat, q: nat, g: nat, x: nat, k: nat, z: nat): Signature
    requires p > 0 && IsPrime(q)
  {
    if !(0 < k < q && 1 < g < p && 0 < x < q) then BadRequest else
      ModUnique(0, k, q);
      var r := Pow(g, k) % p % q;
      var s := (Inverse(k, q) * (z + x * r)) % q;
      Signature(r != 0 && s != 0, r, s)
  }

  /** w = s^-1, u1 = zw, u2 = rw modulo q, and v = (g^u1 y^u2 mod p) mod q is compared with r. */
  ghost function Verify(p: nat, q: nat, g: nat, y: nat, z: nat, r: nat, s: nat): Verdict
    requires p > 0 && IsPrime(q)
  {
    if !(1 < g < p && y < p && 0 < r < q && 0 < s < q) then Refused else
      ModUnique(0, s, q);
      var w := Inverse(s, q);
      var u1, u2 := (z * w) % q, (r * w) % q;
      var v := (Pow(g, u1) * Pow(y, u2)) % p % q;
      Verdict(v == r)
  }

  /**
   * A signature belongs to the nonce it was asked for: r is g^k modulo p modulo q, and k s is z + x r modulo q, which for
   * given k leaves only one s below q. Anything but a nonce and a key between 0 and q and a generator between 1 and p is
   * refused, and the status says that neither number is zero.
   */
  lemma SignatureOfNonce(p: nat, q: nat, g: nat, x: nat, k: nat, z: nat)
    requires p > 0 && IsPrime(q)
    ensures var sig := SignRS(p, q, g, x, k, z);
            && (sig.BadRequest? <==> k == 0 || k >= q || g <= 1 || g >= p || x == 0 || x >= q)
            && (sig.Signature? ==>
                  && sig.r == GenY(p, g, k) % q
                  && sig.s < q && (k * sig.s) % q == (z + x * sig.r) % q
                  && (sig.status <==> sig.r != 0 && sig.s != 0))
    ensures forall s, s' :: 0 < k < q && 0 <= s < q && 0 <= s' < q && (k * s) % q == (k * s') % q ==> s == s'
  {
    if 0 < k < q {
      ModUnique(0, k, q);
      if 1 < g < p && 0 < x < q {
        TimesNonce(q, k, z + x * (Pow(g, k) % p % q));
      }
      forall s, s' | 0 <= s < q && 0 <= s' < q && (k * s) % q == (k * s') % q
        ensures s == s'
      {
        Cancel(q, k, s, s');
        ModUnique(0, s, q);
        ModUnique(0, s', q);
      }
    }
  }

  lemma TimesNonce(q: nat, k: nat, t: int)
    requires IsPrime(q) && 0 < k < q && k % q != 0
    ensures (k * ((Inverse(k, q) * t) % q)) % q == t % q
  {
    var v := Inverse(k, q);
    OneBelow(q);
    ModMul(v * t, k, q);
    Swap(k, v, t);
    ModMulCong(k * v, 1, t, t, q);
  }

  /** The same for signing in two calls. */
  lemma TwoStepsOfNonce(p: nat, q: nat, g: nat, x: nat, k: nat, r: nat, z: nat)
    requires p > 0 && IsPrime(q)
    ensures SignR(p, q, g, k) == if 0 < k < q && 1 < g < p then Generated(GenY(p, g, k) % q != 0, GenY(p, g, k) % q)
                                 else InvalidParam
    ensures var s := SignS(q, x, k, r, z);
            && (s.InvalidParam? <==> k == 0 || k >= q || r == 0 || r >= q || x == 0 || x >= q)
            && (s.Generated? ==> s.value < q && (k * s.value) % q == (z + x * r) % q && (s.status <==> s.value != 0))
  {
    if 0 < k < q && 0 < r < q && 0 < x < q {
      ModUnique(0, k, q);
      TimesNonce(q, k, z + x * r);
    }
  }

  /**
   * What verification compares, whatever the public key: for the u1 and u2 below q with s u1 = z and s u2 = r modulo q,
   * r with g^u1 y^u2 modulo p modulo q. Numbers out of range are refused.
   */
  lemma VerifyMeans(p: nat, q: nat, g: nat, y: nat, z: nat, r: nat, s: nat, u1: nat, u2: nat)
    requires p > 0 && IsPrime(q)
    ensures Verify(p, q, g, y, z, r, s).Refused? <==>
            g <= 1 || g >= p || y >= p || r == 0 || r >= q || s == 0 || s >= q
    ensures u1 < q && u2 < q && (s * u1) % q == z % q && (s * u2) % q == r && Verify(p, q, g, y, z, r, s).Verdict? ==>
              (Verify(p, q, g, y, z, r, s).ok <==> (GenY(p, g, u1) * GenY(p, y, u2)) % p % q == r)
  {
    if 0 < s < q && 0 < r < q && u1 < q && u2 < q && (s * u1) % q == z % q && (s * u2) % q == r {
      ModUnique(0, s, q);
      ModUnique(0, r, q);
      Quotient(q, s, u1, z);
      Quotient(q, s, u2, r);
      ModMulBoth(Pow(g, u1), Pow(y, u2), p);
    }
  }

  /** Dividing by s modulo q. */
  lemma Quotient(q: nat, s: nat, u: nat, t: nat)
    requires IsPrime(q) && 0 < s < q && u < q && s % q != 0 && (s * u) % q == t % q
    ensures (t * Inverse(s, q)) % q == u
  {
    var w := Inverse(s, q);
    OneBelow(q);
    ModMulCong(t, s * u, w, w, q);
    assert s * u * w == s * w * u by { Swap(s, u, w); }
    ModMulCong(s * w, 1, u, u, q);
    ModUnique(0, u, q);
  }

  /** Signing in two calls gives the same pair as signing in one. */
  lemma TwoStepSigning(p: nat, q: nat, g: nat, x: nat, k: nat, z: nat)
    requires p > 0 && IsPrime(q)
    ensures var one, r := SignRS(p, q, g, x, k, z), SignR(p, q, g, k);
            && (one.BadRequest? <==> r.InvalidParam? || !(0 < x < q))
            && (one.Signature? ==>
                  && r.value == one.r
                  && (r.status ==> SignS(q, x, k, r.value, z) == Generated(one.s != 0, one.s))
                  && (one.status <==> r.status && one.s != 0))
  {
  }

  /** The nonce a signature stands for: s^-1 (z + x r) mod q. */
  ghost function ImpliedNonce(q: nat, x: nat, z: nat, r: nat, s: nat): nat
    requires IsPrime(q) && 0 < s < q
  {
    ModUnique(0, s, q);
    (Inverse(s, q) * (z + x * r)) % q
  }

  /** u1 + x u2 is the implied nonce modulo q. */
  lemma ExponentSum(q: nat, x: nat, z: nat, r: nat, w: nat)
    requires q > 0
    ensures ((z * w) % q + x * ((r * w) % q)) % q == (w * (z + x * r)) % q
  {
    ModMod(z * w, q);
    ModMul(r * w, x, q);
    ModAddCong((z * w) % q, z * w, x * ((r * w) % q), x * (r * w), q);
    Swap(x, r, w);
    Distribute(z, x * r, w);
  }

  /** The value verification computes is g to the implied nonce. */
  lemma VerifyValue(p: nat, q: nat, g: nat, x: nat, z: nat, r: nat, s: nat)
    requires Domain(p, q, g) && 0 < s < q
    ensures s % q != 0
    ensures var w, y := Inverse(s, q), GenY(p, g, x);
            (Pow(g, (z * w) % q) * Pow(y, (r * w) % q)) % p == Pow(g, ImpliedNonce(q, x, z, r, s)) % p
  {
    ModUnique(0, s, q);
    var w, y := Inverse(s, q), GenY(p, g, x);
    var u1, u2 := (z * w) % q, (r * w) % q;
    OneBelow(p);
    ModMod(Pow(g, x), p);
    PowCong(y, Pow(g, x), u2, p);
    PowMul(g, x, u2);
    ModMulCong(Pow(g, u1), Pow(g, u1), Pow(y, u2), Pow(g, x * u2), p);
    PowAdd(g, u1, x * u2);
    PowPeriod(g, q, u1 + x * u2, p);
    ExponentSum(q, x, z, r, w);
  }

  /** From a nonce and its s back to the nonce: s = k^-1 t and k = s^-1 t are the same equation. */
  lemma NonceEquation(q: nat, k: nat, s: nat, t: int)
    requires IsPrime(q) && 0 < k < q && 0 < s < q
    ensures k % q != 0 && s % q != 0
    ensures (Inverse(k, q) * t) % q == s <==> (Inverse(s, q) * t) % q == k
  {
    ModUnique(0, k, q);
    ModUnique(0, s, q);
    Transpose(q, k, s, t);
    Transpose(q, s, k, t);
  }

  lemma Transpose(q: nat, k: nat, s: nat, t: int)
    requires IsPrime(q) && 0 < k < q && 0 < s < q && k % q != 0
    ensures (Inverse(k, q) * t) % q == s <==> t % q == (k * s) % q
  {
    var v := Inverse(k, q);
    OneBelow(q);
    if (v * t) % q == s {
      // k*s = k*(v*t) = t
      ModMul(v * t, k, q);
      Swap(k, v, t);
      ModMulCong(k * v, 1, t, t, q);
    }
    if t % q == (k * s) % q {
      ModMulCong(v, v, t, k * s, q);
      Swap(v, k, s);
      assert v * k == k * v;
      ModMulCong(k * v, 1, s, s, q);
      ModUnique(0, s, q);
    }
  }

  /** Every signature that signing reports as good is accepted. */
  lemma SignThenVerify(p: nat, q: nat, g: nat, x: nat, k: nat, z: nat)
    requires Domain(p, q, g) && 0 < x < q && 0 < k < q
    ensures var sig := SignRS(p, q, g, x, k, z);
            sig.Signature? && (sig.status ==> Verify(p, q, g, GenY(p, g, x), z, sig.r, sig.s) == Verdict(true))
  {
    var sig := SignRS(p, q, g, x, k, z);
    if sig.status {
      NonceEquation(q, k, sig.s, z + x * sig.r);
      VerifyValue(p, q, g, x, z, sig.r, sig.s);
    }
  }

  /** Verification accepts exactly the pairs signing can produce with some nonce, and one more
      kind: r = 1 when z + x is a multiple of q, where the implied nonce is zero. */
  lemma VerifyExactly(p: nat, q: nat, g: nat, x: nat, z: nat, r: nat, s: nat)
    requires Domain(p, q, g) && 0 < x < q && 0 < r < q && 0 < s < q
    ensures Verify(p, q, g, GenY(p, g, x), z, r, s) == Verdict(true) <==>
            (exists k :: 0 < k < q && SignRS(p, q, g, x, k, z) == Signature(true, r, s)) ||
            (r == 1 && (z + x) % q == 0)
  {
    var k', t := ImpliedNonce(q, x, z, r, s), z + x * r;
    VerifyValue(p, q, g, x, z, r, s);
    if 0 < k' {
      NonceEquation(q, k', s, t);
      if Pow(g, k') % p % q == r {
        assert SignRS(p, q, g, x, k', z) == Signature(true, r, s);
      }
    } else {
      ZeroNonce(p, q, g, s, t);
      assert r == 1 ==> x * r == x;
    }
    if k :| 0 < k < q && SignRS(p, q, g, x, k, z) == Signature(true, r, s) {
      SignThenVerify(p, q, g, x, k, z);
    }
    if r == 1 && (z + x) % q == 0 {
      assert x * r == x;
      UnitTimes(q, s, t);
      ZeroNonce(p, q, g, s, t);
    }
  }

  /** The implied nonce is zero only when z + x r is a multiple of q, and then v is 1. */
  lemma ZeroNonce(p: nat, q: nat, g: nat, s: nat, t: nat)
    requires p > 1 && IsPrime(q) && 0 < s < q
    ensures s % q != 0
    ensures (Inverse(s, q) * t) % q == 0 ==> t % q == 0
    ensures Pow(g, 0) % p % q == 1
  {
    ModUnique(0, s, q);
    OneBelow(p);
    OneBelow(q);
    if (Inverse(s, q) * t) % q == 0 {
      Euclid(q, Inverse(s, q), t);
      if Inverse(s, q) % q == 0 { ModMulCong(s, s, Inverse(s, q), 0, q); }
    }
  }

  lemma UnitTimes(q: nat, s: nat, t: nat)
    requires IsPrime(q) && 0 < s < q && t % q == 0
    ensures s % q != 0
    ensures (Inverse(s, q) * t) % q == 0
  {
    ModUnique(0, s, q);
    ModMulCong(Inverse(s, q), Inverse(s, q), t, 0, q);
  }
}
