/** The user-space slab allocator: a bitmap of blocks searched through a sliding 64-bit window. */
module MemSlab {
  import opened Types
  import opened Bits
  import NumberTheory

  const UNIT_SIZE: nat := 1024

  /** Bit k of a bitmap. */
  predicate Used(bits: seq<Qword>, k: nat)
    requires k < 64 * |bits|
  {
    bits[k / 64][k % 64]
  }

  /** The same, by word and bit. */
  lemma UsedAt(bits: seq<Qword>, q: nat, i: nat)
    requires q < |bits| && i < 64
    ensures 64 * q + i < 64 * |bits| && (64 * q + i) / 64 == q && (64 * q + i) % 64 == i
  {
  }

  /** What a change of the bits index .. index + n to b leaves. */
  ghost predicate Painted(before: seq<Qword>, after: seq<Qword>, index: nat, n: nat, b: bool) {
    && |after| == |before|
    && forall q, i :: 0 <= q < |before| && 0 <= i < 64 ==>
         (after[q][i] <==> if index <= 64 * q + i < index + n then b else before[q][i])
  }

  // ---------------------------------------------------------------- reading and painting

  /** The window w holds the 64 bits from pos on. */
  ghost predicate Shows(bits: seq<Qword>, pos: nat, w: Qword) {
    pos + 64 <= 64 * |bits| && forall i :: 0 <= i < 64 ==> (w[i] <==> Used(bits, pos + i))
  }

  /** All bits from lo up to hi are b. */
  ghost predicate AllAre(bits: seq<Qword>, lo: nat, hi: nat, b: bool) {
    hi <= 64 * |bits| && forall k :: lo <= k < hi ==> (Used(bits, k) <==> b)
  }

  lemma RunInWindow(bits: seq<Qword>, pos: nat, w: Qword, lo: nat, hi: nat, b: bool)
    requires Shows(bits, pos, w) && lo <= hi <= 64 && forall i :: lo <= i < hi ==> w[i] == b
    ensures AllAre(bits, pos + lo, pos + hi, b)
  {
    forall k | pos + lo <= k < pos + hi
      ensures k < 64 * |bits| && (Used(bits, k) <==> b)
    {
      assert w[k - pos] == b;
    }
  }

  /** The 64 bits from window_pos on. */
  method BitmapRead(bitmap: array<Qword>, windowPos: nat) returns (w: Qword)
    requires bitmap.Length > 0
    ensures windowPos >= 64 * (bitmap.Length - 1) ==> w == Filled(64, true)
    ensures windowPos < 64 * (bitmap.Length - 1) ==> Shows(bitmap[..], windowPos, w)
  {
    var qword := windowPos / 64;
    if qword >= bitmap.Length - 1 {
      return Filled(64, true);
    }
    var bit := windowPos % 64;
    w := bitmap[qword];
    if bit == 0 {
      return;
    }
    var next := bitmap[qword + 1];
    ghost var low := w;
    w := Shr(w, bit);
    next := Shl(next, 64 - bit);
    w := Or(w, next);
    forall i | 0 <= i < 64
      ensures w[i] <==> Used(bitmap[..], windowPos + i)
    {
      if bit + i < 64 {
        UsedAt(bitmap[..], qword, bit + i);
      } else {
        UsedAt(bitmap[..], qword + 1, bit + i - 64);
      }
    }
  }

  /** Sets the bits index .. index + n. */
  method SetBitmap(bitmap: array<Qword>, index: nat, n: nat)
    requires index + n <= 64 * (bitmap.Length - 1)
    modifies bitmap
    ensures Painted(old(bitmap[..]), bitmap[..], index, n, true)
  {
    var qword, offset, len := index / 64, index % 64, n;
    if offset > 0 {
      var width := if len < 64 - offset then len else 64 - offset;
      bitmap[qword] := Or(bitmap[qword], Shl(Mask(64, width), offset));
      len := len - width;
      qword := qword + 1;
    }
    var num := len / 64;
    len := len % 64;
    while num > 0
      invariant 0 <= qword < bitmap.Length && num >= 0
      invariant 64 * qword + 64 * num + len == index + n || (num == 0 && len == 0 && index + n <= 64 * qword)
      invariant forall q, i :: 0 <= q < qword && 0 <= i < 64 ==>
                  (bitmap[q][i] <==> if index <= 64 * q + i < index + n then true else old(bitmap[q][i]))
      invariant forall q :: qword <= q < bitmap.Length ==> bitmap[q] == old(bitmap[q])
      invariant index <= 64 * qword
    {
      bitmap[qword] := Filled(64, true);
      qword := qword + 1;
      num := num - 1;
    }
    bitmap[qword] := Or(bitmap[qword], Mask(64, len));
  }

  /** Clears the bits index .. index + n. */
  method ClearBitmap(bitmap: array<Qword>, index: nat, n: nat)
    requires index + n <= 64 * (bitmap.Length - 1)
    modifies bitmap
    ensures Painted(old(bitmap[..]), bitmap[..], index, n, false)
  {
    var qword, offset, len := index / 64, index % 64, n;
    if offset > 0 {
      var width := if len < 64 - offset then len else 64 - offset;
      bitmap[qword] := And(bitmap[qword], Not(Shl(Mask(64, width), offset)));
      len := len - width;
      qword := qword + 1;
    }
    var num := len / 64;
    len := len % 64;
    while num > 0
      invariant 0 <= qword < bitmap.Length && num >= 0
      invariant 64 * qword + 64 * num + len == index + n || (num == 0 && len == 0 && index + n <= 64 * qword)
      invariant forall q, i :: 0 <= q < qword && 0 <= i < 64 ==>
                  (bitmap[q][i] <==> if index <= 64 * q + i < index + n then false else old(bitmap[q][i]))
      invariant forall q :: qword <= q < bitmap.Length ==> bitmap[q] == old(bitmap[q])
      invariant index <= 64 * qword
    {
      bitmap[qword] := Filled(64, false);
      qword := qword + 1;
      num := num - 1;
    }
    bitmap[qword] := And(bitmap[qword], Not(Mask(64, len)));
  }

  // ---------------------------------------------------------------- searching

  /** n free blocks from block first on, all inside the bitmap proper. */
  ghost predicate Fits(bits: seq<Qword>, first: nat, n: nat) {
    && |bits| > 0
    && first + n <= 64 * (|bits| - 1)
    && forall k :: first <= k < first + n ==> !Used(bits, k)
  }

  predicate Aligned(first: nat, align: nat) {
    align == 0 || first % align == 0
  }

  /** No aligned fit starts below limit. */
  ghost predicate NoneBelow(bits: seq<Qword>, n: nat, align: nat, limit: nat) {
    forall first: nat :: first < limit && Aligned(first, align) ==> !Fits(bits, first, n)
  }

  /** The lowest aligned fit. */
  ghost predicate FirstFit(bits: seq<Qword>, first: nat, n: nat, align: nat) {
    Fits(bits, first, n) && Aligned(first, align) && NoneBelow(bits, n, align, first)
  }

  ghost predicate NoFit(bits: seq<Qword>, n: nat, align: nat) {
    forall first: nat :: Aligned(first, align) ==> !Fits(bits, first, n)
  }

  /** The next multiple of the alignment, if there is one to keep to. */
  method AlignUp(pos: nat, align: nat) returns (next: nat)
    ensures pos <= next && Aligned(next, align)
    ensures forall x: nat :: pos <= x < next ==> !Aligned(x, align)
  {
    next := pos;
    if align > 0 && pos % align != 0 {
      var q, r := pos / align, pos % align;
      next := pos + (align - r);
      assert next == (q + 1) * align + 0;
      NumberTheory.ModUnique(q + 1, 0, align);
      forall x: nat | pos <= x < next
        ensures !Aligned(x, align)
      {
        assert x == q * align + (r + (x - pos));
        NumberTheory.ModUnique(q, r + (x - pos), align);
      }
    }
  }

  /** Slides the window over the bitmap until enough consecutive free blocks are found. The answer
      is the first aligned fit, and there is no answer exactly when there is no aligned fit. */
  method FindBlocks(bitmap: array<Qword>, required: nat, align: nat) returns (r: Option<nat>)
    requires bitmap.Length > 0 && required > 0
    ensures r.Some? ==> FirstFit(bitmap[..], r.value, required, align)
    ensures r.None? ==> NoFit(bitmap[..], required, align)
  {
    var end := 64 * (bitmap.Length - 1);
    ghost var bits := bitmap[..];
    var windowPos: nat, firstBlock: nat, found: nat := 0, 0, 0;
    while windowPos < end
      invariant firstBlock <= windowPos && found == windowPos - firstBlock < required
      invariant Aligned(firstBlock, align)
      invariant firstBlock < windowPos ==> AllAre(bits, firstBlock, windowPos, false)
      invariant NoneBelow(bits, required, align, firstBlock)
      decreases end - windowPos
    {
      var window := BitmapRead(bitmap, windowPos);
      var width := Ctz(window);
      found := found + width;
      if width > 0 { RunInWindow(bits, windowPos, window, 0, width, false); }
      if found >= required {
        if firstBlock + required > end {
          TooLate(bits, required, align, firstBlock);
          return None;
        }
        return Some(firstBlock);
      }
      if !IsZero(window) {
        var ones := Ctz(Not(Shr(window, width + 1)));
        RunOfOnes(window, width, ones);
        RunInWindow(bits, windowPos, window, width, width + 1 + ones, true);
        ghost var busy := windowPos + width;
        found := 0;
        windowPos := windowPos + width + 1 + ones;
        ghost var skipped := windowPos;
        windowPos := AlignUp(windowPos, align);
        Skip(bits, required, align, firstBlock, busy, skipped, windowPos);
        firstBlock := windowPos;
      } else {
        windowPos := windowPos + width;
      }
    }
    TooLate(bits, required, align, firstBlock);
    return None;
  }

  /** When even the first candidate left runs past the end, there is no fit. */
  lemma TooLate(bits: seq<Qword>, n: nat, align: nat, first: nat)
    requires |bits| > 0 && NoneBelow(bits, n, align, first) && first + n > 64 * (|bits| - 1)
    ensures NoFit(bits, n, align)
  {
  }

  /** The set bits that follow the lowest one. */
  lemma RunOfOnes(window: Qword, width: nat, ones: nat)
    requires width == Ctz(window) && ones == Ctz(Not(Shr(window, width + 1))) && !IsZero(window)
    ensures width + 1 + ones <= 64
    ensures forall i :: width <= i < width + 1 + ones ==> window[i]
  {
    var rest := Shr(window, width + 1);
    if width < 63 { assert !rest[63 - width]; }
    forall i | width < i < width + 1 + ones
      ensures i < 64 && window[i]
    {
      assert !Not(rest)[i - width - 1];
      assert rest[i - width - 1];
    }
  }

  /** Nothing between the old and the new start can be the start of an aligned fit. */
  lemma Skip(bits: seq<Qword>, n: nat, align: nat, first: nat, busy: nat, skipped: nat, next: nat)
    requires NoneBelow(bits, n, align, first) && first <= busy < first + n
    requires busy < skipped <= next && AllAre(bits, busy, skipped, true)
    requires forall x: nat :: skipped <= x < next ==> !Aligned(x, align)
    requires n > 0
    ensures NoneBelow(bits, n, align, next)
  {
    forall f: nat | f < next && Aligned(f, align)
      ensures !Fits(bits, f, n)
    {
      if first <= f < skipped {
        assert Used(bits, if f <= busy then busy else f);
      }
    }
  }

  // ---------------------------------------------------------------- slabs

  /** Block k belongs to one of the live allocations, given as first block and length. */
  ghost predicate Owned(live: map<nat, nat>, k: nat) {
    exists f :: f in live && f <= k < f + live[f]
  }

  /** Live allocations lie behind the reserved blocks, inside the slab, and do not overlap. */
  ghost predicate Disjoint(live: map<nat, nat>, reserved: nat, end: nat) {
    && (forall f :: f in live ==> reserved <= f && 0 < live[f] && f + live[f] <= end)
    && (forall f, g :: f in live && g in live && f < g ==> f + live[f] <= g)
  }

  /** The bitmap says exactly which blocks are reserved or live. */
  ghost predicate Consistent(bits: seq<Qword>, live: map<nat, nat>, reserved: nat) {
    && |bits| > 0
    && forall k :: 0 <= k < 64 * (|bits| - 1) ==> (Used(bits, k) <==> k < reserved || Owned(live, k))
  }

  /** A painted bitmap, block by block. */
  lemma PaintedUsed(before: seq<Qword>, after: seq<Qword>, index: nat, n: nat, b: bool, k: nat)
    requires Painted(before, after, index, n, b) && k < 64 * |before|
    ensures Used(after, k) <==> if index <= k < index + n then b else Used(before, k)
  {
    assert 64 * (k / 64) + k % 64 == k;
    assert after[k / 64][k % 64] <==> if index <= 64 * (k / 64) + k % 64 < index + n then b else before[k / 64][k % 64];
  }

  lemma OwnedAfterAlloc(live: map<nat, nat>, f: nat, n: nat, k: nat)
    requires f !in live
    ensures Owned(live[f := n], k) <==> Owned(live, k) || f <= k < f + n
  {
    var live' := live[f := n];
    if Owned(live, k) {
      var g :| g in live && g <= k < g + live[g];
      assert g in live' && g <= k < g + live'[g];
    }
    if f <= k < f + n {
      assert f in live' && f <= k < f + live'[f];
    }
  }

  /** Taking a fit keeps the books: the new allocation overlaps no live one. */
  lemma AllocKeeps(before: seq<Qword>, after: seq<Qword>, live: map<nat, nat>, reserved: nat, f: nat, n: nat)
    requires Consistent(before, live, reserved) && Disjoint(live, reserved, 64 * (|before| - 1))
    requires n > 0 && Fits(before, f, n) && Painted(before, after, f, n, true)
    ensures f !in live
    ensures Consistent(after, live[f := n], reserved)
    ensures Disjoint(live[f := n], reserved, 64 * (|before| - 1))
  {
    assert !Used(before, f);
    assert f !in live by {
      if f in live { assert Owned(live, f); }
    }
    forall k | 0 <= k < 64 * (|after| - 1)
      ensures Used(after, k) <==> k < reserved || Owned(live[f := n], k)
    {
      PaintedUsed(before, after, f, n, true, k);
      OwnedAfterAlloc(live, f, n, k);
    }
    forall g | g in live
      ensures g < f ==> g + live[g] <= f
      ensures f < g ==> f + n <= g
    {
      assert g <= g < g + live[g];
      assert Owned(live, g);
      assert g < f < g + live[g] ==> Owned(live, f);
      assert Used(before, g);
    }
  }

  /** Giving a live allocation back keeps the books. */
  lemma FreeKeeps(before: seq<Qword>, after: seq<Qword>, live: map<nat, nat>, reserved: nat, f: nat)
    requires Consistent(before, live, reserved) && Disjoint(live, reserved, 64 * (|before| - 1))
    requires f in live && Painted(before, after, f, live[f], false)
    ensures Consistent(after, live - {f}, reserved)
    ensures Disjoint(live - {f}, reserved, 64 * (|before| - 1))
  {
    var live' := live - {f};
    forall k | 0 <= k < 64 * (|after| - 1)
      ensures Used(after, k) <==> k < reserved || Owned(live', k)
    {
      PaintedUsed(before, after, f, live[f], false, k);
      if Owned(live', k) {
        var g :| g in live' && g <= k < g + live'[g];
        assert g in live && g <= k < g + live[g];
        assert !(f <= k < f + live[f]);
      }
      if Owned(live, k) && !(f <= k < f + live[f]) {
        var g :| g in live && g <= k < g + live[g];
        assert g in live' && g <= k < g + live'[g];
      }
    }
  }

  /** Freeing an address that is not live leaves the books right exactly when every block it
      clears was free already. */
  lemma StaleFreeHarmlessIff(before: seq<Qword>, after: seq<Qword>, live: map<nat, nat>, reserved: nat, f: nat, n: nat)
    requires Consistent(before, live, reserved) && f + n <= 64 * (|before| - 1)
    requires Painted(before, after, f, n, false)
    ensures Consistent(after, live, reserved) <==> AllAre(before, f, f + n, false)
  {
    forall k | 0 <= k < 64 * |before|
      ensures Used(after, k) <==> if f <= k < f + n then false else Used(before, k)
    {
      PaintedUsed(before, after, f, n, false, k);
    }
    if Consistent(after, live, reserved) {
      forall k | f <= k < f + n
        ensures k < 64 * |before| && !Used(before, k)
      {
        assert !Used(after, k);
        assert !(k < reserved || Owned(live, k));
      }
    }
    if AllAre(before, f, f + n, false) {
      forall k | 0 <= k < 64 * (|after| - 1)
        ensures Used(after, k) <==> k < reserved || Owned(live, k)
      {
        assert Used(after, k) <==> Used(before, k);
      }
    }
  }

  /** Allocating and freeing restores the bitmap bit for bit. */
  lemma AllocFreeRestores(b0: seq<Qword>, b1: seq<Qword>, b2: seq<Qword>, f: nat, n: nat)
    requires Fits(b0, f, n) && Painted(b0, b1, f, n, true) && Painted(b1, b2, f, n, false)
    ensures b2 == b0
  {
    forall q | 0 <= q < |b0|
      ensures b2[q] == b0[q]
    {
      forall i | 0 <= i < 64
        ensures b2[q][i] == b0[q][i]
      {
        UsedAt(b0, q, i);
        if f <= 64 * q + i < f + n { assert !Used(b0, 64 * q + i); }
      }
    }
  }

  /** Blocks needed for a number of bytes. */
  function Blocks(size: nat): nat {
    (size + UNIT_SIZE - 1) / UNIT_SIZE
  }

  /** The octets of an allocation lie in its own blocks, inside the slab, and in nobody else's. */
  lemma OctetsOwned(live: map<nat, nat>, reserved: nat, end: nat, f: nat, size: nat)
    requires Disjoint(live, reserved, end) && f in live && live[f] == Blocks(size) && size > 0
    ensures (live[f] - 1) * 1024 < size <= live[f] * 1024
    ensures reserved * 1024 <= f * 1024 && f * 1024 + size <= end * 1024
    ensures forall g :: g in live && g != f ==> (g + live[g]) * 1024 <= f * 1024 || f * 1024 + size <= g * 1024
  {
  }

  class Slab {
    const bitmap: array<Qword>
    const sizes: array<nat>
    const reserved: nat
    ghost var live: map<nat, nat>

    ghost predicate Valid()
      reads this, bitmap, sizes
    {
      && bitmap.Length > 0 && sizes.Length == 64 * (bitmap.Length - 1) <= 0xFFFF
      && Consistent(bitmap[..], live, reserved)
      && Disjoint(live, reserved, 64 * (bitmap.Length - 1))
      && forall f :: f in live ==> f < sizes.Length && sizes[f] == live[f]
    }

    /** A slab of chunks 64-block chunks whose first blocks hold the control structure. */
    constructor (chunks: nat, reserved: nat)
      requires 0 < chunks && 64 * chunks <= 0xFFFF && reserved < 64
      ensures Valid() && live == map[] && this.reserved == reserved && bitmap.Length == chunks + 1
      ensures fresh(bitmap) && fresh(sizes)
    {
      var b := new Qword[chunks + 1](_ => Filled(64, false));
      b[0] := Mask(64, reserved);
      b[chunks] := Filled(64, true);
      bitmap := b;
      sizes := new nat[64 * chunks](_ => 0);
      this.reserved := reserved;
      live := map[];
      new;
      forall k | 0 <= k < 64 * chunks
        ensures Used(bitmap[..], k) <==> k < reserved
      {
        if k < 64 { assert k / 64 == 0; }
      }
    }

    /** The offset of size bytes of memory at an aligned block, or nothing. The answer is the
        first aligned fit, and nothing only for size 0 or when there is no aligned fit. The bytes are
        all in blocks of this allocation, and the last block holds one of them. */
    method MemAlloc(size: nat, align: nat) returns (r: Option<nat>)
      requires Valid()
      modifies this, bitmap, sizes
      ensures Valid()
      ensures r.None? <==> size == 0 || NoFit(old(bitmap[..]), Blocks(size), align)
      ensures r.Some? ==>
        var f := r.value / 1024;
        && r.value % 1024 == 0 && (align == 0 || f % align == 0)
        && f in live && (live[f] - 1) * 1024 < size <= live[f] * 1024
        && reserved * 1024 <= r.value && r.value + size <= 65536 * (bitmap.Length - 1)
        && forall g :: g in live && g != f ==> (g + live[g]) * 1024 <= r.value || r.value + size <= g * 1024
      ensures r.None? ==> live == old(live) && bitmap[..] == old(bitmap[..])
      ensures r.Some? ==>
        var f := r.value / UNIT_SIZE;
        && r.value % UNIT_SIZE == 0
        && FirstFit(old(bitmap[..]), f, Blocks(size), align)
        && Painted(old(bitmap[..]), bitmap[..], f, Blocks(size), true)
        && f !in old(live) && live == old(live)[f := Blocks(size)]
        && f < sizes.Length && sizes[..] == old(sizes[..])[f := Blocks(size)]
    {
      if size == 0 {
        return None;
      }
      var first := FindBlocks(bitmap, Blocks(size), align);
      if first.None? {
        return None;
      }
      Take(first.value, Blocks(size));
      OctetsOwned(live, reserved, 64 * (bitmap.Length - 1), first.value, size);
      r := Some(first.value * UNIT_SIZE);
    }

    /** Marks a fit as used and records its length. */
    method Take(first: nat, required: nat)
      requires Valid() && required > 0 && Fits(bitmap[..], first, required)
      modifies this, bitmap, sizes
      ensures Valid()
      ensures Painted(old(bitmap[..]), bitmap[..], first, required, true)
      ensures first !in old(live) && live == old(live)[first := required]
      ensures first < sizes.Length && sizes[..] == old(sizes[..])[first := required]
    {
      sizes[first] := required % 0x1_0000;
      SetBitmap(bitmap, first, required);
      AllocKeeps(old(bitmap[..]), bitmap[..], live, reserved, first, required);
      live := live[first := required];
    }

    /** Gives back the memory at an offset inside the slab. */
    method MemFree(block: nat)
      requires Valid() && block / UNIT_SIZE < sizes.Length
      modifies this, bitmap
      ensures block % UNIT_SIZE != 0 ==> bitmap[..] == old(bitmap[..]) && live == old(live)
      ensures block % UNIT_SIZE == 0 ==>
        var f := block / UNIT_SIZE;
        if f + sizes[f] > sizes.Length then bitmap[..] == old(bitmap[..])
        else Painted(old(bitmap[..]), bitmap[..], f, sizes[f], false)
      ensures block % UNIT_SIZE == 0 ==>
        var f := block / UNIT_SIZE;
        && (f in old(live) ==>
              Valid() && live == old(live) - {f} && Painted(old(bitmap[..]), bitmap[..], f, old(live)[f], false))
        && (f !in old(live) ==>
              && live == old(live)
              && (Valid() <==> f + sizes[f] > sizes.Length || AllAre(old(bitmap[..]), f, f + sizes[f], false)))
    {
      if block % UNIT_SIZE != 0 {
        return;
      }
      var first := block / UNIT_SIZE;
      var length := sizes[first];
      if length + first > 64 * (bitmap.Length - 1) {
        return;
      }
      ClearBitmap(bitmap, first, length);
      if first in live {
        FreeKeeps(old(bitmap[..]), bitmap[..], live, reserved, first);
      } else {
        StaleFreeHarmlessIff(old(bitmap[..]), bitmap[..], live, reserved, first, length);
      }
      live := live - {first};
    }
  }

  /** Where the first fit must be when everything below a run of free blocks is taken. */
  lemma FitIs(bits: seq<Qword>, live: map<nat, nat>, reserved: nat, n: nat, g: nat)
    requires Consistent(bits, live, reserved) && n > 0 && reserved <= g && g + n <= 64 * (|bits| - 1)
    requires forall k :: reserved <= k < g ==> Owned(live, k)
    requires forall k :: g <= k < g + n ==> !Owned(live, k)
    ensures !NoFit(bits, n, 0)
    ensures forall f: nat :: FirstFit(bits, f, n, 0) ==> f == g
  {
    assert Aligned(g, 0) && Fits(bits, g, n);
    assert forall k :: 0 <= k < g ==> Used(bits, k);
    forall f: nat | FirstFit(bits, f, n, 0)
      ensures f == g
    {
      assert !Used(bits, f);
    }
  }

  /** Allocates where the first fit must be. */
  method AllocAt(s: Slab, blocks: nat, g: nat)
    requires s.Valid() && blocks > 0 && s.reserved <= g && g + blocks <= s.sizes.Length
    requires forall k :: s.reserved <= k < g ==> Owned(s.live, k)
    requires forall k :: g <= k < g + blocks ==> !Owned(s.live, k)
    modifies s, s.bitmap, s.sizes
    ensures s.Valid() && s.live == old(s.live)[g := blocks]
    ensures s.sizes[..] == old(s.sizes[..])[g := blocks]
  {
    FitIs(s.bitmap[..], s.live, s.reserved, blocks, g);
    assert Blocks(blocks * UNIT_SIZE) == blocks;
    var r := s.MemAlloc(blocks * UNIT_SIZE, 0);
  }

  /**
   * Two allocations of one block, both freed; one of two blocks in their place; then the second of the first two freed
   * again: its recorded size is still there, and a block of the live allocation is marked free.
   */
  method StaleFreeRun() returns (s: Slab)
    ensures s.live == map[4 := 2] && !s.Valid()
    ensures |s.bitmap[..]| > 0 && !Used(s.bitmap[..], 5) && Owned(s.live, 5)
  {
    s := new Slab(1, 4);
    AllocAt(s, 1, 4);
    assert Owned(s.live, 4) by { assert 4 in s.live && 4 <= 4 < 4 + s.live[4]; }
    AllocAt(s, 1, 5);
    s.MemFree(4 * UNIT_SIZE);
    s.MemFree(5 * UNIT_SIZE);
    assert s.live == map[];
    AllocAt(s, 2, 4);
    assert s.sizes[5] == 1;
    assert Owned(s.live, 5) by { assert 4 in s.live && 4 <= 5 < 4 + s.live[4]; }
    ghost var before := s.bitmap[..];
    assert Used(before, 5);
    s.MemFree(5 * UNIT_SIZE);
    PaintedUsed(before, s.bitmap[..], 5, 1, false, 5);
    assert !AllAre(before, 5, 6, false);
  }
}
