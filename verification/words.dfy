/** Machine vocabulary shared by the bitmap model: Go's `uintptr`, the 32-bit
    words a bitmap is made of, single-bit masks, the bit view of a word array
    and the three read-modify-write operations the mark bits use. */
module Words {

  /** Go's `uintptr` on a 64-bit target; arithmetic on it wraps modulo 2^64. */
  const UINTPTR_MODULUS: nat := 0x1_0000_0000_0000_0000
  type Uintptr = n: nat | n < UINTPTR_MODULUS

  /** One storage word of a bitmap (`gcBits` is a `uint32`). */
  type Word = bv32
  type Byte = bv8

  /** Number of a bit inside a word (0 is the least significant bit). */
  type WordBit = bv5
  /** Number of a bit inside a byte. */
  type ByteBit = bv3

  /** The words of a bitmap in address order. */
  type Storage = seq<Word>

  /** The word with only bit `k` set, `1 << k`. */
  function Bit(k: WordBit): Word {
    1 << k
  }

  /** The byte with only bit `r` set. */
  function ByteMask(r: ByteBit): Byte {
    1 << r
  }

  /** `m` has exactly one bit set. */
  predicate IsSingleBit(m: Word) {
    m != 0 && m & (m - 1) == 0
  }

  /** The number of the one bit set in `m`. */
  function Log2(m: Word): (k: WordBit)
    requires IsSingleBit(m)
    ensures Bit(k) == m
    decreases m as nat
  {
    if m == 1 then 0 else 1 + Log2(m >> 1)
  }

  /** `1 << k` has exactly one bit set, and that bit is `k`. */
  lemma BitIsSingle(k: WordBit)
    ensures IsSingleBit(Bit(k))
    ensures Log2(Bit(k)) == k
  {
    var j := Log2(Bit(k));
    assert Bit(j) == Bit(k);
  }

  /** The in-word bit number of linear bit `p`, that is `p % 32`. */
  function WordBitOf(p: nat): (k: WordBit)
    ensures k as nat == p % 32
  {
    (p % 32) as WordBit
  }

  /** Bit `p` of the storage, counting from bit 0 of word 0. */
  predicate TestBit(s: Storage, p: nat)
    requires p < 32 * |s|
  {
    s[p / 32] & Bit(WordBitOf(p)) != 0
  }

  /** The three read-modify-write operations applied to a mark word:
      `setMarked` XORs, `setMarkedNonAtomic` ORs, `clearMarked` ANDs the
      complement of the mask. */
  datatype WordOp = Toggle | Set | Clear

  /** The word an operation stores back, given the word it read. */
  function Apply(op: WordOp, w: Word, m: Word): Word {
    match op
    case Toggle => w ^ m
    case Set => w | m
    case Clear => w & !m
  }

  /** The same operation on one byte lane of the word. */
  function ApplyByte(op: WordOp, b: Byte, m: Byte): Byte {
    match op
    case Toggle => b ^ m
    case Set => b | m
    case Clear => b & !m
  }

  /** What an operation does to the one bit its single-bit mask selects. */
  function ApplyBit(op: WordOp, x: bool): bool {
    match op
    case Toggle => !x
    case Set => true
    case Clear => false
  }

  /** With a single-bit mask, an operation changes at most the selected bit of
      a word, and changes that bit as `ApplyBit` says. */
  lemma ApplySelectedBit(op: WordOp, w: Word, k: WordBit, j: WordBit)
    ensures (Apply(op, w, Bit(k)) & Bit(j) != 0)
         == if j == k then ApplyBit(op, w & Bit(j) != 0) else w & Bit(j) != 0
  {
    match op
    case Toggle =>
    case Set =>
    case Clear =>
  }

  /** The byte-lane version of `ApplySelectedBit`. */
  lemma ApplyByteSelectedBit(op: WordOp, b: Byte, r: ByteBit, t: ByteBit)
    ensures (ApplyByte(op, b, ByteMask(r)) & ByteMask(t) != 0)
         == if t == r then ApplyBit(op, b & ByteMask(t) != 0) else b & ByteMask(t) != 0
  {
    match op
    case Toggle =>
    case Set =>
    case Clear =>
  }
}
