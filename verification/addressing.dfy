/** Bit addressing: the `markBits` cursor record, pointer arithmetic
    (`addb`, `uint32p`) and `bitp`, which turns a bit number into the word
    holding it and a mask selecting it. */
module Addressing {
  import opened Words

  /** The `markBits` record. `ptr` is the `*uint32` the bit is read and
      written through, as a byte offset from the start of the bitmap; `mask`
      selects the bit in the 32-bit word at `ptr`; `index` is the bit's
      number. */
  datatype MarkBits = MarkBits(ptr: nat, mask: Word, index: Uintptr)

  /** `addb(p, n)`: pointer `p` moved forward by `n` bytes. */
  function Addb(p: nat, n: nat): nat {
    p + n
  }

  /** `b.uint32p(n)`: pointer to word `n` of the bitmap, `n*4` bytes past its
      start. */
  function Uint32p(n: nat): (p: nat)
    ensures p % 4 == 0 && p / 4 == n
  {
    Addb(0, n * 4)
  }

  /** `b.bitp(n)`: the pointer to the word holding bit `n` and the mask
      `1 << (n % 32)` selecting it in that word. */
  function Bitp(n: Uintptr): (nat, Word) {
    (Uint32p(n / 32), Bit(WordBitOf(n)))
  }

  /** The linear bit number a cursor designates: bit `log2(mask)` of the
      32-bit little-endian word at byte `ptr` is bit `8*ptr + log2(mask)` of
      the bitmap. */
  function Pos(c: MarkBits): nat
    requires IsSingleBit(c.mask)
  {
    8 * c.ptr + Log2(c.mask) as nat
  }

  /** The cursor for bit `n`: `bitp(n)` with index `n`. */
  function CursorAt(n: Uintptr): MarkBits {
    MarkBits(Bitp(n).0, Bitp(n).1, n)
  }

  /** `bitp(n)` points at the word `n / 32`, at a word boundary, with a mask
      that has exactly the bit `n % 32` set; so word and mask together
      address bit `n` and nothing else. */
  lemma BitpAddresses(n: Uintptr)
    ensures Bitp(n).0 % 4 == 0 && Bitp(n).0 / 4 == n / 32
    ensures IsSingleBit(Bitp(n).1)
    ensures Log2(Bitp(n).1) as nat == n % 32
    ensures 32 * (n / 32) + Log2(Bitp(n).1) as nat == n
    ensures IsSingleBit(CursorAt(n).mask) && Pos(CursorAt(n)) == n && CursorAt(n).index == n
  {
    BitIsSingle(WordBitOf(n));
  }

  /** Two different bit numbers never share both word and mask. */
  lemma BitpInjective(n1: Uintptr, n2: Uintptr)
    requires n1 != n2
    ensures Bitp(n1) != Bitp(n2)
  {
    BitpAddresses(n1);
    BitpAddresses(n2);
  }
}
