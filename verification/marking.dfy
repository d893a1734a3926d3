/** The single-bit operations on a `markBits` cursor: `isMarked`,
    `setMarked`, `setMarkedNonAtomic` and `clearMarked`.

    Every one of them reads or writes the 32-bit word at the cursor's
    pointer. The pointer may sit at any byte (after `advance`), so these
    operations work on the bitmap's memory, a byte sequence, with 32-bit
    little-endian loads and stores. The storage words are that memory seen
    four bytes at a time (`ToBytes`). The compare-and-swap retry loops of
    `setMarked` and `clearMarked` are one atomic read-modify-write here: the
    loop ends when the store of `op(old)` succeeds, and that store is the
    only effect it has. */
module Marking {
  import opened Words
  import opened ByteView
  import opened Addressing

  /** The bitmap's memory, byte 0 being the byte `*gcBits` points at. */
  type Memory = seq<Byte>

  /** The 32-bit word the cursor reads and writes lies inside the bitmap. */
  predicate InBounds(m: Memory, c: MarkBits) {
    c.ptr + 4 <= |m|
  }

  /** `*m.uint32p`: the word at the cursor's pointer. */
  function WordAt(m: Memory, c: MarkBits): Word
    requires InBounds(m, c)
  {
    LoadLE(m, c.ptr)
  }

  /** `m.isMarked()`: whether the word at the pointer has a bit of the mask
      set. */
  function IsMarked(m: Memory, c: MarkBits): bool
    requires InBounds(m, c)
  {
    WordAt(m, c) & c.mask != 0
  }

  /** With a single-bit mask `isMarked` reads exactly the bit the cursor
      designates, wherever its pointer sits. */
  lemma IsMarkedReadsBit(m: Memory, c: MarkBits)
    requires InBounds(m, c) && IsSingleBit(c.mask)
    ensures Pos(c) < 8 * |m|
    ensures IsMarked(m, c) == TestByteBit(m, Pos(c))
  {
    LoadSelects(m, c.ptr, Log2(c.mask));
  }

  /** On the memory of a storage, `isMarked` with a single-bit mask tests a
      bit of the storage. */
  lemma IsMarkedInStorage(s: Storage, c: MarkBits)
    requires InBounds(ToBytes(s), c) && IsSingleBit(c.mask)
    ensures Pos(c) < 32 * |s|
    ensures IsMarked(ToBytes(s), c) == TestBit(s, Pos(c))
  {
    IsMarkedReadsBit(ToBytes(s), c);
    ByteViewBit(s, Pos(c));
  }

  /** At a storage word boundary `isMarked` tests the storage word `ptr / 4`
      against the mask. */
  lemma IsMarkedAligned(s: Storage, c: MarkBits)
    requires InBounds(ToBytes(s), c) && c.ptr % 4 == 0
    ensures c.ptr / 4 < |s|
    ensures IsMarked(ToBytes(s), c) == (s[c.ptr / 4] & c.mask != 0)
  {
    var i := c.ptr / 4;
    assert c.ptr == 4 * i;
    AlignedLoad(s, i);
  }

  /** One read-modify-write of the word at the pointer: load it, apply `op`
      with the cursor's mask, store the result back. */
  function Update(m: Memory, c: MarkBits, op: WordOp): (r: Memory)
    requires InBounds(m, c)
    ensures |r| == |m|
  {
    StoreLE(m, c.ptr, Apply(op, WordAt(m, c), c.mask))
  }

  /** After an update the word at the pointer is `op` applied to the word
      before, and every byte outside that word is as it was. */
  lemma UpdateWord(m: Memory, c: MarkBits, op: WordOp)
    requires InBounds(m, c)
    ensures InBounds(Update(m, c, op), c)
    ensures WordAt(Update(m, c, op), c) == Apply(op, WordAt(m, c), c.mask)
    ensures forall j :: 0 <= j < |m| && !(c.ptr <= j < c.ptr + 4) ==> Update(m, c, op)[j] == m[j]
  {
    LoadAfterStore(m, c.ptr, Apply(op, WordAt(m, c), c.mask));
  }

  /** At a word boundary of a storage's memory, an update replaces that one
      storage word by `op` of it and leaves every other word as it was. */
  lemma UpdateAligned(s: Storage, c: MarkBits, op: WordOp)
    requires InBounds(ToBytes(s), c) && c.ptr % 4 == 0
    ensures c.ptr / 4 < |s|
    ensures Update(ToBytes(s), c, op) == ToBytes(s[c.ptr / 4 := Apply(op, s[c.ptr / 4], c.mask)])
  {
    var i := c.ptr / 4;
    assert c.ptr == 4 * i;
    AlignedLoad(s, i);
    AlignedStore(s, i, Apply(op, s[i], c.mask));
  }


  /** With a single-bit mask an update changes the designated bit as `op`
      says and no other bit of the bitmap, wherever the pointer sits. */
  lemma UpdateBits(m: Memory, c: MarkBits, op: WordOp, p: nat)
    requires InBounds(m, c) && IsSingleBit(c.mask) && p < 8 * |m|
    ensures TestByteBit(Update(m, c, op), p)
         == if p == Pos(c) then ApplyBit(op, TestByteBit(m, p)) else TestByteBit(m, p)
  {
    var k := Log2(c.mask);
    StoreApply(m, c.ptr, op, k);
    ByteUpdateBit(m, c.ptr + LaneOf(k), op, BitInLane(k), p);
    CursorPosition(c.ptr, k, p);
  }

  /** Two updates through the same cursor amount to one store of both
      operations applied in turn to the original word. */
  lemma UpdateTwice(m: Memory, c: MarkBits, op1: WordOp, op2: WordOp)
    requires InBounds(m, c)
    ensures InBounds(Update(m, c, op1), c)
    ensures Update(Update(m, c, op1), c, op2)
         == StoreLE(m, c.ptr, Apply(op2, Apply(op1, WordAt(m, c), c.mask), c.mask))
  {
    var v1 := Apply(op1, WordAt(m, c), c.mask);
    LoadAfterStore(m, c.ptr, v1);
    StoreAfterStore(m, c.ptr, v1, Apply(op2, v1, c.mask));
  }

  /** `m.setMarked()`: the retry loop stores `val ^ mask`, which flips the
      masked bits of the word and keeps the rest of the bitmap. */
  function SetMarked(m: Memory, c: MarkBits): (r: Memory)
    requires InBounds(m, c)
    ensures |r| == |m| && InBounds(r, c)
    ensures WordAt(r, c) == WordAt(m, c) ^ c.mask
    ensures forall j :: 0 <= j < |m| && !(c.ptr <= j < c.ptr + 4) ==> r[j] == m[j]
  {
    UpdateWord(m, c, Toggle);
    Update(m, c, Toggle)
  }

  /** `m.setMarkedNonAtomic()`: `*uint32p |= mask`. */
  function SetMarkedNonAtomic(m: Memory, c: MarkBits): (r: Memory)
    requires InBounds(m, c)
    ensures |r| == |m| && InBounds(r, c)
    ensures WordAt(r, c) == WordAt(m, c) | c.mask
    ensures forall j :: 0 <= j < |m| && !(c.ptr <= j < c.ptr + 4) ==> r[j] == m[j]
  {
    UpdateWord(m, c, Set);
    Update(m, c, Set)
  }

  /** `m.clearMarked()`: the retry loop stores `val & ^mask`. */
  function ClearMarked(m: Memory, c: MarkBits): (r: Memory)
    requires InBounds(m, c)
    ensures |r| == |m| && InBounds(r, c)
    ensures WordAt(r, c) == WordAt(m, c) & !c.mask
    ensures forall j :: 0 <= j < |m| && !(c.ptr <= j < c.ptr + 4) ==> r[j] == m[j]
  {
    UpdateWord(m, c, Clear);
    Update(m, c, Clear)
  }

  /** `setMarked` flips the designated bit and keeps every other bit. */
  lemma SetMarkedFlipsOnlyItsBit(m: Memory, c: MarkBits, p: nat)
    requires InBounds(m, c) && IsSingleBit(c.mask) && p < 8 * |m|
    ensures TestByteBit(SetMarked(m, c), p) == if p == Pos(c) then !TestByteBit(m, p) else TestByteBit(m, p)
  {
    UpdateBits(m, c, Toggle, p);
  }


  /** `setMarked` on a clear bit leaves it marked. */
  lemma SetMarkedMarksClearBit(m: Memory, c: MarkBits)
    requires InBounds(m, c) && c.mask != 0 && !IsMarked(m, c)
    ensures IsMarked(SetMarked(m, c), c)
  {
  }

  /** `setMarked` on a bit that is already marked clears it: it toggles, so
      it is not the idempotent set its comment describes. */
  lemma SetMarkedClearsMarkedBit(m: Memory, c: MarkBits)
    requires InBounds(m, c) && IsSingleBit(c.mask) && IsMarked(m, c)
    ensures !IsMarked(SetMarked(m, c), c)
  {
  }

  /** `setMarked` twice restores the bitmap exactly. */
  lemma SetMarkedTwiceRestores(m: Memory, c: MarkBits)
    requires InBounds(m, c)
    ensures SetMarked(SetMarked(m, c), c) == m
  {
    UpdateTwice(m, c, Toggle, Toggle);
    assert Apply(Toggle, Apply(Toggle, WordAt(m, c), c.mask), c.mask) == WordAt(m, c);
    StoreOfLoad(m, c.ptr);
  }

  /** `setMarkedNonAtomic` sets the designated bit and keeps every other bit. */
  lemma SetMarkedNonAtomicSetsOnlyItsBit(m: Memory, c: MarkBits, p: nat)
    requires InBounds(m, c) && IsSingleBit(c.mask) && p < 8 * |m|
    ensures TestByteBit(SetMarkedNonAtomic(m, c), p) == (p == Pos(c) || TestByteBit(m, p))
  {
    UpdateBits(m, c, Set, p);
  }


  /** After `setMarkedNonAtomic` the cursor reads as marked. */
  lemma SetMarkedNonAtomicMarks(m: Memory, c: MarkBits)
    requires InBounds(m, c)
    ensures c.mask != 0 ==> IsMarked(SetMarkedNonAtomic(m, c), c)
  {
  }

  /** `setMarkedNonAtomic` is idempotent. */
  lemma SetMarkedNonAtomicIdempotent(m: Memory, c: MarkBits)
    requires InBounds(m, c)
    ensures SetMarkedNonAtomic(SetMarkedNonAtomic(m, c), c) == SetMarkedNonAtomic(m, c)
  {
    UpdateTwice(m, c, Set, Set);
    assert Apply(Set, Apply(Set, WordAt(m, c), c.mask), c.mask) == Apply(Set, WordAt(m, c), c.mask);
  }

  /** `clearMarked` clears the designated bit and keeps every other bit. */
  lemma ClearMarkedClearsOnlyItsBit(m: Memory, c: MarkBits, p: nat)
    requires InBounds(m, c) && IsSingleBit(c.mask) && p < 8 * |m|
    ensures TestByteBit(ClearMarked(m, c), p) == (p != Pos(c) && TestByteBit(m, p))
  {
    UpdateBits(m, c, Clear, p);
  }


  /** After `clearMarked` the cursor reads as unmarked. */
  lemma ClearMarkedUnmarks(m: Memory, c: MarkBits)
    requires InBounds(m, c)
    ensures !IsMarked(ClearMarked(m, c), c)
  {
  }

  /** `clearMarked` is idempotent. */
  lemma ClearMarkedIdempotent(m: Memory, c: MarkBits)
    requires InBounds(m, c)
    ensures ClearMarked(ClearMarked(m, c), c) == ClearMarked(m, c)
  {
    UpdateTwice(m, c, Clear, Clear);
    assert Apply(Clear, Apply(Clear, WordAt(m, c), c.mask), c.mask) == Apply(Clear, WordAt(m, c), c.mask);
  }

  /** Updates through cursors at different bits do not interfere: in either
      order each designated bit ends as its own operation makes it, and every
      other bit is kept. This is the sequential content of the no-lost-update
      promise the retry loops make for workers marking bits of one word. */
  lemma DistinctUpdatesCommute(m: Memory, c1: MarkBits, op1: WordOp, c2: MarkBits, op2: WordOp, p: nat)
    requires InBounds(m, c1) && InBounds(m, c2)
    requires IsSingleBit(c1.mask) && IsSingleBit(c2.mask) && Pos(c1) != Pos(c2)
    requires p < 8 * |m|
    ensures TestByteBit(Update(Update(m, c1, op1), c2, op2), p)
         == TestByteBit(Update(Update(m, c2, op2), c1, op1), p)
    ensures TestByteBit(Update(Update(m, c1, op1), c2, op2), p)
         == if p == Pos(c1) then ApplyBit(op1, TestByteBit(m, p))
            else if p == Pos(c2) then ApplyBit(op2, TestByteBit(m, p))
            else TestByteBit(m, p)
  {
    UpdateBits(m, c1, op1, p);
    UpdateBits(m, c2, op2, p);
    UpdateBits(Update(m, c1, op1), c2, op2, p);
    UpdateBits(Update(m, c2, op2), c1, op1, p);
  }

  /** `setMarked` as its comment and the commented-out
      `atomic.Or32(m.uint32p, m.mask)` describe it: one atomic OR of the
      mask. Taken as a single step it stores the same word as the plain OR
      of `setMarkedNonAtomic`. */
  function SetMarkedIntended(m: Memory, c: MarkBits): (r: Memory)
    requires InBounds(m, c)
    ensures |r| == |m| && InBounds(r, c)
    ensures c.mask != 0 ==> IsMarked(r, c)
  {
    SetMarkedNonAtomic(m, c)
  }

  /** The intended `setMarked` is idempotent and changes no bit but the
      designated one, which it sets. */
  lemma SetMarkedIntendedIdempotent(m: Memory, c: MarkBits)
    requires InBounds(m, c)
    ensures SetMarkedIntended(SetMarkedIntended(m, c), c) == SetMarkedIntended(m, c)
    ensures IsSingleBit(c.mask) ==> forall p :: 0 <= p < 8 * |m| ==>
              TestByteBit(SetMarkedIntended(m, c), p) == (p == Pos(c) || TestByteBit(m, p))
  {
    SetMarkedNonAtomicIdempotent(m, c);
    if IsSingleBit(c.mask) {
      forall p | 0 <= p < 8 * |m|
        ensures TestByteBit(SetMarkedIntended(m, c), p) == (p == Pos(c) || TestByteBit(m, p))
      {
        SetMarkedNonAtomicSetsOnlyItsBit(m, c, p);
      }
    }
  }

  /** Reading the designated bit through its one byte, rather than through a
      32-bit load at the cursor's pointer: defined for every bit inside the
      bitmap. */
  function IsMarkedByte(m: Memory, c: MarkBits): bool
    requires IsSingleBit(c.mask) && Pos(c) < 8 * |m|
  {
    TestByteBit(m, Pos(c))
  }

  /** Wherever the 32-bit load stays inside the bitmap, the one-byte read
      agrees with `isMarked`. */
  lemma IsMarkedByteAgrees(m: Memory, c: MarkBits)
    requires InBounds(m, c) && IsSingleBit(c.mask)
    ensures Pos(c) < 8 * |m|
    ensures IsMarkedByte(m, c) == IsMarked(m, c)
  {
    IsMarkedReadsBit(m, c);
  }
}
