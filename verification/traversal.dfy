/** `advance`: stepping a `markBits` cursor to the next object's bit.

    At mask `1 << 7` the pointer moves forward one byte and the mask resets
    to 1; at any other mask the mask shifts left by one (a 32-bit shift, so
    the top bit falls off). The index counts the steps as a `uintptr`. */
module Traversal {
  import opened Words
  import opened Addressing
  import opened ByteView
  import opened Marking
  import opened Construction

  /** The cursor for bit 0 of a bitmap: byte 0, mask 1, index 0. */
  const Origin: MarkBits := MarkBits(0, 1, 0)

  /** `m.advance()`. */
  function Advance(c: MarkBits): MarkBits {
    if c.mask == Bit(7) then MarkBits(c.ptr + 1, 1, (c.index + 1) % UINTPTR_MODULUS)
    else MarkBits(c.ptr, c.mask << 1, (c.index + 1) % UINTPTR_MODULUS)
  }

  /** `k` successive calls of `advance`. */
  function AdvanceN(c: MarkBits, k: nat): MarkBits
    decreases k
  {
    if k == 0 then c else Advance(AdvanceN(c, k - 1))
  }

  /** Shifting a single-bit mask left moves its bit up by one. */
  lemma ShiftBit(j: WordBit)
    requires j < 31
    ensures Bit(j) << 1 == Bit(j + 1)
  {
  }

  /** From any single-bit mask other than `1 << 31`, `advance` designates the
      next bit of the bitmap and bumps the index by one; a cursor in byte
      mode (mask at most `1 << 7`) stays in byte mode. */
  lemma AdvanceSteps(c: MarkBits)
    requires IsSingleBit(c.mask) && c.mask != Bit(31)
    ensures IsSingleBit(Advance(c).mask)
    ensures Pos(Advance(c)) == Pos(c) + 1
    ensures Advance(c).index as nat == (c.index as nat + 1) % UINTPTR_MODULUS
    ensures Log2(c.mask) < 8 ==> Log2(Advance(c).mask) < 8
  {
    var k := Log2(c.mask);
    if c.mask == Bit(7) {
      BitIsSingle(7);
      BitIsSingle(0);
    } else {
      BitIsSingle(31);
      ShiftBit(k);
      BitIsSingle(k + 1);
    }
  }

  /** `advance` from mask `1 << 31` shifts the bit out: the mask becomes 0
      and the pointer stays, so the cursor designates no bit at all. */
  lemma AdvanceLosesTopBit(c: MarkBits)
    requires c.mask == Bit(31)
    ensures Advance(c).mask == 0 && !IsSingleBit(Advance(c).mask)
    ensures Advance(c).ptr == c.ptr
    ensures Advance(c).index as nat == (c.index as nat + 1) % UINTPTR_MODULUS
  {
  }

  /** Whatever the mask, `advance` bumps the index by one (modulo 2^64), and
      it moves the pointer, by exactly one byte, only from mask `1 << 7`. */
  lemma AdvanceCounts(c: MarkBits)
    ensures Advance(c).index as nat == (c.index as nat + 1) % UINTPTR_MODULUS
    ensures Advance(c).ptr == if c.mask == Bit(7) then c.ptr + 1 else c.ptr
  {
  }

  /** A cursor whose mask is empty stays empty and never moves again, however
      often it is advanced, while its index keeps counting. */
  lemma {:induction false} EmptyMaskStaysEmpty(c: MarkBits, k: nat)
    requires c.mask == 0
    ensures AdvanceN(c, k).mask == 0 && AdvanceN(c, k).ptr == c.ptr
    ensures AdvanceN(c, k).index as nat == (c.index as nat + k) % UINTPTR_MODULUS
    decreases k
  {
    if k > 0 {
      EmptyMaskStaysEmpty(c, k - 1);
      WrapStep(c.index as nat, k - 1);
    }
  }

  /** The cursor `bitp` gives for bit 31 loses its bit on the first
      `advance`. */
  lemma BitpCursorLosesBit()
    ensures CursorAt(31).mask == Bit(31)
    ensures Advance(CursorAt(31)).mask == 0
  {
    BitIsSingle(31);
  }

  /** One step of `uintptr` increment on a running count. */
  lemma WrapStep(a: nat, k: nat)
    ensures ((a + k) % UINTPTR_MODULUS + 1) % UINTPTR_MODULUS == (a + k + 1) % UINTPTR_MODULUS
  {
  }

  /** A byte-mode cursor advanced `k` times designates the bit `k` places
      further on, stays in byte mode, and its index has counted the `k`
      steps. */
  lemma {:induction false} AdvanceRun(c: MarkBits, k: nat)
    requires IsSingleBit(c.mask) && Log2(c.mask) < 8
    ensures IsSingleBit(AdvanceN(c, k).mask) && Log2(AdvanceN(c, k).mask) < 8
    ensures Pos(AdvanceN(c, k)) == Pos(c) + k
    ensures AdvanceN(c, k).index as nat == (c.index as nat + k) % UINTPTR_MODULUS
    decreases k
  {
    if k > 0 {
      AdvanceRun(c, k - 1);
      var d := AdvanceN(c, k - 1);
      BitIsSingle(31);
      AdvanceSteps(d);
      WrapStep(c.index as nat, k - 1);
    }
  }

  /** From the start of a bitmap, `k` advances give the cursor for bit `k`:
      byte `k / 8`, mask `1 << (k % 8)`, index `k`. */
  lemma AdvanceFromOrigin(k: nat)
    requires k < UINTPTR_MODULUS
    ensures AdvanceN(Origin, k).ptr == k / 8
    ensures AdvanceN(Origin, k).mask == Bit(WordBitOf(k % 8))
    ensures AdvanceN(Origin, k).index as nat == k
    ensures IsSingleBit(AdvanceN(Origin, k).mask) && Pos(AdvanceN(Origin, k)) == k
  {
    BitIsSingle(0);
    AdvanceRun(Origin, k);
    var c := AdvanceN(Origin, k);
    var j := Log2(c.mask) as nat;
    assert 8 * c.ptr + j == k && j < 8;
    assert c.ptr == k / 8 && j == k % 8;
    MaskOfBitNumber(c.mask, k % 8);
  }

  /** A single-bit mask is determined by its bit number. */
  lemma MaskOfBitNumber(m: Word, j: nat)
    requires IsSingleBit(m) && Log2(m) as nat == j % 32
    ensures m == Bit(WordBitOf(j))
  {
  }

  /** `advance` as evidently intended: the next bit of the bitmap from any
      single-bit mask, moving to the next word after bit 31. */
  function AdvanceIntended(c: MarkBits): MarkBits {
    if c.mask == Bit(7) then MarkBits(c.ptr + 1, 1, (c.index + 1) % UINTPTR_MODULUS)
    else if c.mask == Bit(31) then MarkBits(c.ptr + 4, 1, (c.index + 1) % UINTPTR_MODULUS)
    else MarkBits(c.ptr, c.mask << 1, (c.index + 1) % UINTPTR_MODULUS)
  }

  /** The intended step designates the next bit from every single-bit mask,
      and it agrees with `advance` wherever `advance` does not lose the bit. */
  lemma AdvanceIntendedSteps(c: MarkBits)
    requires IsSingleBit(c.mask)
    ensures IsSingleBit(AdvanceIntended(c).mask)
    ensures Pos(AdvanceIntended(c)) == Pos(c) + 1
    ensures AdvanceIntended(c).index as nat == (c.index as nat + 1) % UINTPTR_MODULUS
    ensures c.mask != Bit(31) ==> AdvanceIntended(c) == Advance(c)
  {
    if c.mask == Bit(31) {
      BitIsSingle(31);
      BitIsSingle(0);
    } else {
      AdvanceSteps(c);
    }
  }

  /** Walking a bitmap from its start, the cursor after `k` advances reads
      bit `k`: always through its byte, and through `isMarked` whenever the
      32-bit load it makes stays inside the bitmap. */
  lemma TraversalReadsBits(m: Memory, k: nat)
    requires k < 8 * |m| && k < UINTPTR_MODULUS
    ensures IsSingleBit(AdvanceN(Origin, k).mask) && Pos(AdvanceN(Origin, k)) == k
    ensures IsMarkedByte(m, AdvanceN(Origin, k)) == TestByteBit(m, k)
    ensures InBounds(m, AdvanceN(Origin, k)) ==> IsMarked(m, AdvanceN(Origin, k)) == TestByteBit(m, k)
  {
    AdvanceFromOrigin(k);
    if InBounds(m, AdvanceN(Origin, k)) {
      IsMarkedByteAgrees(m, AdvanceN(Origin, k));
    }
  }

  /** For the bits in the last three bytes of a bitmap, the cursor walking
      it points at a byte whose 32-bit load runs past the end of the
      bitmap, although the bit itself is inside. */
  lemma TraversalOverreads(m: Memory, k: nat)
    requires 8 * |m| - 24 <= k < 8 * |m| && k < UINTPTR_MODULUS
    ensures IsSingleBit(AdvanceN(Origin, k).mask) && Pos(AdvanceN(Origin, k)) == k
    ensures !InBounds(m, AdvanceN(Origin, k))
  {
    AdvanceFromOrigin(k);
  }

  /** Whenever the slot count fills its 64-bit blocks exactly, storage
      built by `newMarkBits(nelems, _)` has no padding after the last slot,
      and `isMarked` for that slot, reached by `advance`, loads three bytes
      past the end of the bitmap. For 64 slots: bytes 7 to 10 of an 8-byte
      bitmap. */
  lemma LastSlotOverreads(nelems: Uintptr, s: Storage)
    requires 0 < nelems && nelems % 64 == 0 && nelems + 63 < UINTPTR_MODULUS
    requires |s| == WordCount(nelems)
    ensures 32 * |s| == nelems
    ensures AdvanceN(Origin, nelems - 1).ptr == 4 * |s| - 1
    ensures !InBounds(ToBytes(s), AdvanceN(Origin, nelems - 1))
  {
    WordCountCovers(nelems);
    var m := ToBytes(s);
    assert 8 * |m| == nelems;
    TraversalOverreads(m, nelems - 1);
    AdvanceFromOrigin(nelems - 1);
  }
}
