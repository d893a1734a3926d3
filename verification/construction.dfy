/** `newMarkBits` and `newAllocBits`: sizing a bitmap for `nelems` object
    slots, allocating it and, unless zeroed storage was asked for, turning
    every word to all ones.

    The allocator (`newXAllocator(n).alloc()`) is outside this model; it is
    the function `Allocate`, whose `healthy` argument stands for whether the
    allocation succeeds. */
module Construction {
  import opened Words
  import opened Outcomes
  import opened Addressing
  import opened Inversion
  import opened ByteView
  import opened Marking

  /** `blocksNeeded := (nelems + 63) / 64`, with the `uintptr` sum wrapping
      modulo 2^64 before the division. */
  function BlocksNeeded(nelems: Uintptr): Uintptr {
    ((nelems + 63) % UINTPTR_MODULUS) / 64
  }

  /** `uint32Needed := blocksNeeded * 2`: whole 64-bit blocks counted in
      32-bit words. */
  function WordCount(nelems: Uintptr): (n: Uintptr)
    ensures n % 2 == 0
  {
    BlocksNeeded(nelems) * 2
  }

  /** The byte size passed to the allocator, `4 * uint32Needed`. */
  function ByteRequest(nelems: Uintptr): (bytes: Uintptr)
    ensures bytes % 4 == 0 && bytes / 4 == WordCount(nelems)
  {
    4 * WordCount(nelems)
  }

  /** Whenever `nelems + 63` does not wrap, the storage is the fewest whole
      64-bit blocks that hold `nelems` bits: enough words for every slot,
      fewer than 64 spare bits. */
  lemma WordCountCovers(nelems: Uintptr)
    requires nelems + 63 < UINTPTR_MODULUS
    ensures 32 * WordCount(nelems) >= nelems
    ensures 32 * WordCount(nelems) < nelems + 64
    ensures 64 * BlocksNeeded(nelems) == 32 * WordCount(nelems)
  {
  }

  /** Every slot number below `nelems` has its `bitp` word inside storage of
      `WordCount(nelems)` words, so `isMarked` and friends may read and
      write through the cursor `bitp` gives for it. */
  lemma SlotsInStorage(nelems: Uintptr, s: Storage, n: Uintptr)
    requires nelems + 63 < UINTPTR_MODULUS && |s| == WordCount(nelems) && n < nelems
    ensures n / 32 < |s|
    ensures InBounds(ToBytes(s), CursorAt(n))
  {
    WordCountCovers(nelems);
    BitpAddresses(n);
  }

  /** For the largest `nelems` the sum `nelems + 63` wraps and the bitmap is
      sized for nothing. */
  lemma WordCountWrapsNearTop()
    ensures WordCount(UINTPTR_MODULUS - 1) == 0
  {
  }

  /** `newXAllocator(bytes).alloc()`: zeroed storage of `bytes / 4` words, or
      an allocation error. */
  function Allocate(bytes: Uintptr, healthy: bool): (r: Result<Storage>)
    ensures r.Ok? <==> healthy
    ensures r.Ok? ==> |r.value| == bytes / 4 && forall i :: 0 <= i < |r.value| ==> r.value[i] == 0
    ensures r.Err? ==> r.error == AllocFailed
  {
    if healthy then Ok(seq(bytes / 4, _ => 0)) else Err(AllocFailed)
  }

  /** The all-ones word. */
  const ALL_ONES: Word := 0xFFFF_FFFF

  /** `newMarkBits(nelems, zero)`. An allocation error is passed on with no
      storage. Otherwise the storage has `WordCount(nelems)` words, each 0
      when `zero` holds and all ones otherwise; so every bit reads as
      `!zero`. */
  method NewMarkBits(nelems: Uintptr, zero: bool, healthy: bool) returns (r: Result<Storage>)
    ensures r.Err? <==> !healthy
    ensures r.Err? ==> r.error == AllocFailed
    ensures r.Ok? ==> |r.value| == WordCount(nelems)
    ensures r.Ok? ==> forall i :: 0 <= i < |r.value| ==> r.value[i] == if zero then 0 else ALL_ONES
    ensures r.Ok? ==> forall p :: 0 <= p < 32 * |r.value| ==> TestBit(r.value, p) == !zero
  {
    var a := Allocate(ByteRequest(nelems), healthy);
    if a.Err? {
      return Err(a.error);
    }
    var bits := a.value;
    if !zero {
      bits := ComplementLeading(bits, WordCount(nelems));
    }
    forall p | 0 <= p < 32 * |bits|
      ensures TestBit(bits, p) == !zero
    {
      BitIsSingle(WordBitOf(p));
    }
    r := Ok(bits);
  }

  /** `newAllocBits(nelems)`: `newMarkBits(nelems, false)`, so on success
      every word is all ones and every bit reads as set. */
  method NewAllocBits(nelems: Uintptr, healthy: bool) returns (r: Result<Storage>)
    ensures r.Err? <==> !healthy
    ensures r.Err? ==> r.error == AllocFailed
    ensures r.Ok? ==> |r.value| == WordCount(nelems)
    ensures r.Ok? ==> forall i :: 0 <= i < |r.value| ==> r.value[i] == ALL_ONES
    ensures r.Ok? ==> forall p :: 0 <= p < 32 * |r.value| ==> TestBit(r.value, p)
  {
    r := NewMarkBits(nelems, false, healthy);
  }
}
