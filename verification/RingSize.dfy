/** How big a ring is made for a number of messages, and how byte offsets go round it. */
module RingSize {
  import opened NumberTheory

  const SHIFT_1K := 10
  const SHIFT_16K := 14
  const SHIFT_4M := 22
  const MAX_BYTES := 4194304

  /** n, less its low k bits, is `left`. */
  ghost predicate Above(n: nat, left: nat, k: nat) {
    left * Pow(2, k) <= n < (left + 1) * Pow(2, k)
  }

  lemma AboveHalf(n: nat, left: nat, k: nat)
    requires left > 0 && Above(n, left, k)
    ensures Above(n, left / 2, k + 1) && Pow(2, k) <= n
  {
    var h, b, P := left / 2, left % 2, Pow(2, k);
    assert Pow(2, k + 1) == 2 * P;
    hide Pow;
    Distribute(2 * h, b, P);
    Swap(h, P, 2);
    Swap(h + 1, P, 2);
    Distribute(2 * h + b, 1, P);
    Distribute(h, 1, 2 * P);
    Distribute(left - 1, 1, P);
    assert (left - 1) * P >= 0;
  }

  lemma AboveEnds(n: nat, k: nat)
    ensures Above(n, n, 0)
    ensures Above(n, 0, k) ==> n < Pow(2, k)
  {
  }

  /** How many times a number can be halved before it is gone. */
  method Halvings(n: nat) returns (k: nat)
    ensures n < Pow(2, k)
    ensures k > 0 ==> Pow(2, k - 1) <= n
  {
    hide Pow, Above;
    k := 0;
    var left := n;
    AboveEnds(n, 0);
    while left > 0
      invariant Above(n, left, k)
      invariant k > 0 && left == 0 ==> Pow(2, k - 1) <= n
    {
      AboveHalf(n, left, k);
      left := left / 2;
      k := k + 1;
    }
    AboveEnds(n, k);
  }

  const WORD := 0x1_0000_0000

  /** What the code makes of a size: the least power of two from 1 KB on, 4 MB beyond that, and 4 GB for zero. */
  ghost predicate Sized(bytes: nat, shift: nat) {
    if bytes == 0 then shift > SHIFT_1K && Pow(2, shift - 1) < WORD <= Pow(2, shift)
    else if bytes > MAX_BYTES then shift == SHIFT_4M
    else shift >= SHIFT_1K && bytes <= Pow(2, shift) && (shift > SHIFT_1K ==> Pow(2, shift - 1) < bytes)
  }

  /**
   * validateRingSize: the size is computed on 32 bits, and the ring is sized for what comes out. It holds the messages
   * if and only if they come to no more than 4 MB, or to exactly 4 GB.
   */
  method ValidateRingSize(numMsgs: nat, msgSize: nat) returns (shift: nat)
    requires numMsgs < WORD && msgSize < WORD
    ensures numMsgs == 0 || msgSize == 0 || msgSize % 16 != 0 ==> shift == 14
    ensures var bytes := numMsgs * msgSize;
            0 < bytes && msgSize % 16 == 0 ==>
              && Sized(bytes % 0x1_0000_0000, shift)
              && (bytes <= Pow(2, shift) <==> bytes <= 4194304 || bytes == 0x1_0000_0000)
  {
    hide Pow, Sized;
    if numMsgs == 0 || msgSize == 0 || msgSize % 16 != 0 {
      return SHIFT_16K;
    }
    var bytes := numMsgs * msgSize % WORD;
    if bytes <= MAX_BYTES {
      var last := (bytes - 1) % WORD;
      var k := Halvings(last / 1024);
      shift := SHIFT_1K + k;
      InBytes(last, k);
      SizedBelow(bytes, last, k);
    } else {
      shift := SHIFT_4M;
      SizedAbove(bytes);
    }
    Positive(numMsgs, msgSize);
    HoldsIff(numMsgs * msgSize, shift);
  }

  lemma SizedBelow(bytes: nat, last: nat, k: nat)
    requires bytes <= MAX_BYTES && last == (bytes - 1) % WORD
    requires last < Pow(2, 10 + k) && (k > 0 ==> Pow(2, 10 + k - 1) <= last)
    ensures Sized(bytes, 10 + k)
  {
    FourMegabytes();
    hide Pow;
  }

  lemma SizedAbove(bytes: nat)
    requires bytes > MAX_BYTES
    ensures Sized(bytes, SHIFT_4M)
  {
  }

  /** A ring sized for a total cut to 32 bits, against the total itself. */
  lemma HoldsIff(bytes: nat, shift: nat)
    requires bytes > 0 && Sized(bytes % WORD, shift)
    ensures bytes <= Pow(2, shift) <==> bytes <= MAX_BYTES || bytes == WORD
  {
    FourMegabytes();
    assert shift > 0 ==> Pow(2, shift) == 2 * Pow(2, shift - 1);
    hide Pow;
    var q := bytes / WORD;
    assert bytes == q * WORD + bytes % WORD;
  }

  /** Messages that come to a little over 4 GB get the smallest ring there is, and do not fit it. */
  method WrapExample() returns (shift: nat)
    ensures shift == 10 && Pow(2, shift) < 0x1000_0001 * 16
  {
    hide Pow;
    shift := ValidateRingSize(0x1000_0001, 16);
    SmallestRing(16, shift);
  }

  lemma SmallestRing(bytes: nat, shift: nat)
    requires 0 < bytes <= 1024 && Sized(bytes, shift)
    ensures shift == SHIFT_1K && Pow(2, shift) == 1024
  {
    FourMegabytes();
    hide Pow;
    if shift > SHIFT_1K {
      PowAdd(2, 10, shift - 11);
    }
  }

  lemma Positive(a: nat, b: nat)
    requires a > 0 && b > 0
    ensures a * b > 0
  {
  }

  lemma FourMegabytes()
    ensures Pow(2, 10) == 1024 && Pow(2, 22) == MAX_BYTES
  {
    assert Pow(2, 5) == 32;
    PowAdd(2, 5, 5);
    PowAdd(2, 10, 10);
    PowAdd(2, 20, 2);
    assert Pow(2, 2) == 4;
  }

  lemma InBytes(last: nat, k: nat)
    requires last / 1024 < Pow(2, k) && (k > 0 ==> Pow(2, k - 1) <= last / 1024)
    ensures last < Pow(2, 10 + k) && (k > 0 ==> Pow(2, 10 + k - 1) <= last)
  {
    FourMegabytes();
    PowAdd(2, 10, k);
    if k > 0 { PowAdd(2, 10, k - 1); }
  }

  /** The driver's modulo: what is left below a power of two. */
  function Modulo(data: nat, shift: nat): int {
    data - data / Pow(2, shift) * Pow(2, shift)
  }

  /** Where the tail stands after that many messages. */
  function Offset(position: nat, msgSize: nat, shift: nat): nat {
    position * msgSize % Pow(2, shift)
  }

  lemma OffsetStep(position: nat, msgSize: nat, shift: nat)
    ensures Offset(0, msgSize, shift) == 0
    ensures Modulo(Offset(position, msgSize, shift) + msgSize, shift) == Offset(position + 1, msgSize, shift)
  {
    hide Pow;
    var M, x := Pow(2, shift), position * msgSize;
    Distribute(position, 1, msgSize);
    ModAddCong(x % M, x, msgSize, msgSize, M);
    ModMod(x, M);
  }

  /** Messages never run over the end of the ring if and only if their size divides the ring's: 64 and 128 do, 48 does not. */
  lemma NeverStraddlesIff(msgSize: nat, shift: nat)
    requires 0 < msgSize <= Pow(2, shift)
    ensures (forall position: nat :: Offset(position, msgSize, shift) + msgSize <= Pow(2, shift)) <==>
            Pow(2, shift) % msgSize == 0
  {
    hide Pow;
    var M := Pow(2, shift);
    if M % msgSize == 0 {
      forall position: nat
        ensures Offset(position, msgSize, shift) + msgSize <= M
      {
        OffsetIsSlot(position, msgSize, M / msgSize, shift);
      }
    } else {
      var q := M / msgSize;
      assert q * msgSize < M < q * msgSize + msgSize;
      ModUnique(0, q * msgSize, M);
      assert Offset(q, msgSize, shift) + msgSize > M;
    }
  }

  lemma SlotEnd(r: nat, slots: nat, msgSize: nat)
    requires r < slots
    ensures r * msgSize + msgSize <= slots * msgSize
  {
    var d := slots - (r + 1);
    assert d * msgSize >= 0;
    Distribute(slots, r + 1, msgSize);
    Distribute(r, 1, msgSize);
  }

  lemma Rearrange(q: nat, slots: nat, r: nat, msgSize: nat)
    ensures (q * slots + r) * msgSize == q * (slots * msgSize) + r * msgSize
  {
    Distribute(q * slots, r, msgSize);
    Swap(q, slots, msgSize);
  }

  /** When the message size divides the ring's, the tail stands at a slot, and the slots go round one by one. */
  lemma OffsetIsSlot(position: nat, msgSize: nat, slots: nat, shift: nat)
    requires msgSize > 0 && slots > 0 && slots * msgSize == Pow(2, shift)
    ensures Offset(position, msgSize, shift) == position % slots * msgSize
    ensures Offset(position, msgSize, shift) + msgSize <= Pow(2, shift)
  {
    hide Pow;
    var q, r := position / slots, position % slots;
    assert position == q * slots + r;
    Rearrange(q, slots, r, msgSize);
    SlotEnd(r, slots, msgSize);
    ModUnique(q, r * msgSize, Pow(2, shift));
  }

  lemma {:induction false} NotByThree(k: nat)
    ensures Pow(2, k) % 3 != 0
  {
    if k > 0 {
      NotByThree(k - 1);
      assert Pow(2, k) == 2 * Pow(2, k - 1);
      hide Pow;
      TwiceNotByThree(Pow(2, k - 1));
    }
  }

  lemma TwiceNotByThree(n: nat)
    requires n % 3 != 0
    ensures 2 * n % 3 != 0
  {
  }

  /** Whatever the ring, some message of 48 octets runs over its end, and no message of 64 or 128 does. */
  lemma FortyEightStraddles(shift: nat)
    ensures Pow(2, shift) % 48 != 0
    ensures shift >= SHIFT_1K ==> exists position: nat :: Offset(position, 48, shift) + 48 > Pow(2, shift)
    ensures shift >= SHIFT_1K ==> forall size, position: nat :: size in {64, 128} ==>
                                    Offset(position, size, shift) + size <= Pow(2, shift)
  {
    NotByThree(shift);
    hide Pow;
    NotBy48(Pow(2, shift));
    if shift >= SHIFT_1K {
      Whole(shift);
      NeverStraddlesIff(48, shift);
      NeverStraddlesIff(64, shift);
      NeverStraddlesIff(128, shift);
    }
  }

  lemma NotBy48(n: nat)
    requires n % 3 != 0
    ensures n % 48 != 0
  {
  }

  lemma Whole(shift: nat)
    requires shift >= SHIFT_1K
    ensures Pow(2, shift) >= 128 && Pow(2, shift) % 64 == 0 && Pow(2, shift) % 128 == 0
  {
    assert Pow(2, 7) == 128;
    PowAdd(2, 7, shift - 7);
    hide Pow;
    Multiple(Pow(2, shift), Pow(2, shift - 7));
  }

  lemma Multiple(n: nat, k: nat)
    requires n == 128 * k && k > 0
    ensures n >= 128 && n % 64 == 0 && n % 128 == 0
  {
    ModUnique(k, 0, 128);
    ModUnique(2 * k, 0, 64);
  }

  // The rings of a symmetric service

  const MIN_CONCURRENT := 64
  const MAX_CONCURRENT := 65536

  /** The numbers of concurrent requests that can be configured: powers of two from 64 to 65536. */
  ghost predicate Configurable(n: nat) {
    exists j :: 6 <= j <= 16 && n == Pow(2, j)
  }

  lemma {:induction false} Grows(i: nat, j: nat)
    requires i <= j
    ensures Pow(2, i) <= Pow(2, j) && (i < j ==> Pow(2, i) < Pow(2, j))
    decreases j
  {
    if i < j { Grows(i, j - 1); }
  }

  lemma Powers()
    ensures Pow(2, 6) == 64 && Pow(2, 15) == 32768 && Pow(2, 16) == 65536
  {
    FourMegabytes();
    PowAdd(2, 6, 4);
    PowAdd(2, 10, 5);
    PowAdd(2, 10, 6);
    assert Pow(2, 4) == 16 && Pow(2, 5) == 32;
  }

  lemma ByNumber(n: nat)
    ensures Configurable(n) <==> n in {64, 128, 256, 512, 1024, 2048, 4096, 8192, 16384, 32768, 65536}
  {
    Powers();
    assert Pow(2, 7) == 128 && Pow(2, 8) == 256 && Pow(2, 9) == 512 && Pow(2, 10) == 1024;
    PowAdd(2, 10, 1);
    PowAdd(2, 10, 2);
    PowAdd(2, 10, 3);
    PowAdd(2, 10, 4);
    assert Pow(2, 11) == 2048 && Pow(2, 12) == 4096 && Pow(2, 13) == 8192 && Pow(2, 14) == 16384;
    hide Pow;
  }

  /** validateConcurrRequest */
  method ValidateConcurrRequest(n: nat) returns (ok: bool)
    ensures ok <==> Configurable(n)
    ensures ok <==> n in {64, 128, 256, 512, 1024, 2048, 4096, 8192, 16384, 32768, 65536}
  {
    ByNumber(n);
    Powers();
    hide Pow, Configurable;
    if n < MIN_CONCURRENT {
      NotConfigurable(n, 6);
      return false;
    }
    var base := MIN_CONCURRENT;
    ghost var j := 6;
    while base <= MAX_CONCURRENT && base != n
      invariant 6 <= j <= 17 && base == Pow(2, j)
      invariant base <= MAX_CONCURRENT <==> j <= 16
      invariant forall i :: 6 <= i < j ==> Pow(2, i) != n
      decreases MAX_CONCURRENT - base
    {
      NextPower(j);
      base := base * 2;
      j := j + 1;
    }
    ok := base <= MAX_CONCURRENT;
    if ok {
      IsConfigurable(j);
    } else {
      NotConfigurable(n, j);
    }
  }

  lemma NextPower(j: nat)
    requires j <= 16
    ensures Pow(2, j + 1) == 2 * Pow(2, j) && (Pow(2, j + 1) <= MAX_CONCURRENT <==> j + 1 <= 16)
  {
    Powers();
    if j + 1 <= 16 { Grows(j + 1, 16); }
  }

  lemma IsConfigurable(j: nat)
    requires 6 <= j <= 16
    ensures Configurable(Pow(2, j))
  {
  }

  lemma NotConfigurable(n: nat, j: nat)
    requires n < MIN_CONCURRENT || (j == 17 && forall i :: 6 <= i < j ==> Pow(2, i) != n)
    ensures !Configurable(n)
  {
    Powers();
    if i :| 6 <= i <= 16 && n == Pow(2, i) { Grows(6, i); }
  }

  /** A size that is itself a power of two from 1 KB to 4 MB gets a ring of exactly that size. */
  lemma SizedExactly(a: nat, shift: nat)
    requires 10 <= a <= 22 && Sized(Pow(2, a), shift)
    ensures shift == a
  {
    FourMegabytes();
    Grows(a, 22);
    if shift < a {
      Grows(shift, a);
    } else if shift > a {
      Grows(a, shift - 1);
    }
  }

  /** The size of the ring made for 2^j messages of 2^m octets. */
  lemma ShiftOf(j: nat, m: nat, shift: nat)
    requires 6 <= j <= 16 && 5 <= m <= 7 && Sized(Pow(2, j + m), shift)
    ensures shift == if j + m == 23 then 22 else j + m
  {
    FourMegabytes();
    if j + m <= 22 {
      SizedExactly(j + m, shift);
    } else {
      Grows(22, 23);
    }
  }

  lemma Total(j: nat, m: nat)
    requires 6 <= j <= 16 && 5 <= m <= 7
    ensures Pow(2, m) == if m == 5 then 32 else if m == 6 then 64 else 128
    ensures 64 <= Pow(2, j) <= 65536 && (j == 16 <==> Pow(2, j) == 65536)
    ensures Pow(2, j) * Pow(2, m) == Pow(2, j + m) < WORD
  {
    Powers();
    assert Pow(2, 5) == 32 && Pow(2, 7) == 128;
    Grows(6, j);
    Grows(j, 16);
    PowAdd(2, j, m);
    FourMegabytes();
    PowAdd(2, 22, 1);
    Grows(j + m, 23);
  }

  /** How many messages of 2^m octets a ring of 2^shift octets takes. */
  lemma SlotsOf(shift: nat, m: nat)
    requires m <= shift
    ensures Pow(2, m) > 0 && Pow(2, shift) / Pow(2, m) == Pow(2, shift - m)
  {
    PowAdd(2, shift - m, m);
    hide Pow;
    ModUnique(Pow(2, shift - m), 0, Pow(2, m));
  }

  /** Where the shift comes from, told in messages. */
  lemma InMessages(n: nat, msgSize: nat)
    requires Configurable(n) && msgSize in {32, 64, 128}
    ensures 0 < n * msgSize < WORD && n < WORD
    ensures forall shift: nat :: Sized(n * msgSize, shift) ==>
              Pow(2, shift) / msgSize == if n == 65536 && msgSize == 128 then 32768 else n
  {
    var j :| 6 <= j <= 16 && n == Pow(2, j);
    var m := if msgSize == 32 then 5 else if msgSize == 64 then 6 else 7;
    Total(j, m);
    Powers();
    hide Pow, Sized;
    forall shift: nat | Sized(n * msgSize, shift)
      ensures Pow(2, shift) / msgSize == if n == 65536 && msgSize == 128 then 32768 else n
    {
      ShiftOf(j, m, shift);
      SlotsOf(shift, m);
    }
  }

  /**
   * The ring made for a number of messages that can be configured, of the sizes the driver uses, has a slot for every
   * one of them, except for 65536 messages of 128 octets, which get half as many.
   */
  method RingSlots(n: nat, msgSize: nat) returns (slots: nat)
    requires Configurable(n) && msgSize in {32, 64, 128}
    ensures slots == if n == 65536 && msgSize == 128 then 32768 else n
  {
    hide Pow, Sized, Configurable;
    InMessages(n, msgSize);
    var shift := ValidateRingSize(n, msgSize);
    SameBelowWord(n * msgSize);
    slots := Pow(2, shift) / msgSize;
  }

  lemma AtLeast(n: nat)
    requires Configurable(n)
    ensures n >= MIN_CONCURRENT
  {
    Powers();
    var j :| 6 <= j <= 16 && n == Pow(2, j);
    Grows(6, j);
  }

  lemma Ends()
    ensures Configurable(64) && Configurable(65536)
  {
    Powers();
    IsConfigurable(6);
    IsConfigurable(16);
  }

  lemma SameBelowWord(bytes: nat)
    requires bytes < WORD
    ensures bytes % WORD == bytes
  {
  }
}
