/** The little-endian byte view of a bitmap's storage.

    A `markBits` cursor holds a `*uint32` that `advance` moves one byte at a
    time, so the cursor can point at any byte of the storage, not only at a
    word boundary. Reading or writing through it is a 32-bit little-endian
    load or store at that byte offset. This module gives the byte image of a
    word array, the load and store at a byte offset, and the facts relating
    bits of the byte image to bits of the words. */
module ByteView {
  import opened Words

  /** Byte lane `q` of a word as it lies in memory; lane 0 is the low byte. */
  function ByteOfWord(w: Word, q: nat): Byte
    requires q < 4
  {
    if q == 0 then (w & 0xFF) as Byte
    else if q == 1 then ((w >> 8) & 0xFF) as Byte
    else if q == 2 then ((w >> 16) & 0xFF) as Byte
    else ((w >> 24) & 0xFF) as Byte
  }

  /** The word a little-endian load returns when memory holds `b0 b1 b2 b3`. */
  function Pack(b0: Byte, b1: Byte, b2: Byte, b3: Byte): (w: Word)
    ensures ByteOfWord(w, 0) == b0 && ByteOfWord(w, 1) == b1
    ensures ByteOfWord(w, 2) == b2 && ByteOfWord(w, 3) == b3
  {
    (b0 as Word) | ((b1 as Word) << 8) | ((b2 as Word) << 16) | ((b3 as Word) << 24)
  }

  /** Storing a word's four lanes and loading them back gives the word. */
  lemma PackLanes(w: Word)
    ensures Pack(ByteOfWord(w, 0), ByteOfWord(w, 1), ByteOfWord(w, 2), ByteOfWord(w, 3)) == w
  {
  }

  /** The lane that holds bit `k` of a word. */
  function LaneOf(k: WordBit): (q: nat)
    ensures q < 4
  {
    if k < 8 then 0 else if k < 16 then 1 else if k < 24 then 2 else 3
  }

  /** The number of bit `k` of a word inside its lane. */
  function BitInLane(k: WordBit): ByteBit {
    (k & 7) as ByteBit
  }

  /** Bit `k` of a word is bit `BitInLane(k)` of lane `LaneOf(k)`. The
      per-lane lemmas keep each lane's bit-vector reasoning in a proof of its
      own; one proof over all four lanes is far costlier for the solver. */
  lemma LaneBit(w: Word, k: WordBit)
    ensures (w & Bit(k) != 0) == (ByteOfWord(w, LaneOf(k)) & ByteMask(BitInLane(k)) != 0)
  {
    var q := LaneOf(k);
    if q == 0 {
      LaneBit0(w, k);
    } else if q == 1 {
      LaneBit1(w, k);
    } else if q == 2 {
      LaneBit2(w, k);
    } else {
      LaneBit3(w, k);
    }
  }

  lemma LaneBit0(w: Word, k: WordBit)
    requires k < 8
    ensures (w & Bit(k) != 0) == (ByteOfWord(w, 0) & ByteMask(BitInLane(k)) != 0)
  {
  }

  lemma LaneBit1(w: Word, k: WordBit)
    requires 8 <= k < 16
    ensures (w & Bit(k) != 0) == (ByteOfWord(w, 1) & ByteMask(BitInLane(k)) != 0)
  {
  }

  lemma LaneBit2(w: Word, k: WordBit)
    requires 16 <= k < 24
    ensures (w & Bit(k) != 0) == (ByteOfWord(w, 2) & ByteMask(BitInLane(k)) != 0)
  {
  }

  lemma LaneBit3(w: Word, k: WordBit)
    requires 24 <= k
    ensures (w & Bit(k) != 0) == (ByteOfWord(w, 3) & ByteMask(BitInLane(k)) != 0)
  {
  }

  /** Bit `k` as a linear number splits into lane and bit in lane. */
  lemma SplitWordBit(k: WordBit)
    ensures k as nat == 8 * LaneOf(k) + BitInLane(k) as nat
  {
  }

  /** The in-word bit number of linear bit `p` lies in lane `(p % 32) / 8`
      at bit `p % 8` of that lane. */
  lemma JoinWordBit(p: nat)
    ensures LaneOf(WordBitOf(p)) == (p % 32) / 8
    ensures BitInLane(WordBitOf(p)) == (p % 8) as ByteBit
  {
  }

  /** An operation with a single-bit mask rewrites only the lane holding the
      bit, and rewrites it with the same operation on that lane. */
  lemma LaneOfApply(op: WordOp, w: Word, k: WordBit, q: nat)
    requires q < 4
    ensures ByteOfWord(Apply(op, w, Bit(k)), q)
         == if q == LaneOf(k) then ApplyByte(op, ByteOfWord(w, q), ByteMask(BitInLane(k)))
            else ByteOfWord(w, q)
  {
    LaneOfOp(op, w, Bit(k), q);
    LaneOfBit(k, q);
    if q != LaneOf(k) {
      ZeroMaskKeeps(op, ByteOfWord(w, q));
    }
  }

  /** Lane extraction commutes with the bitwise operations; one lemma per
      lane, for the same reason as `LaneBit`. */
  lemma LaneOfOp(op: WordOp, w: Word, m: Word, q: nat)
    requires q < 4
    ensures ByteOfWord(Apply(op, w, m), q) == ApplyByte(op, ByteOfWord(w, q), ByteOfWord(m, q))
  {
    if q == 0 {
      LaneOfOp0(op, w, m);
    } else if q == 1 {
      LaneOfOp1(op, w, m);
    } else if q == 2 {
      LaneOfOp2(op, w, m);
    } else {
      LaneOfOp3(op, w, m);
    }
  }

  lemma LaneOfOp0(op: WordOp, w: Word, m: Word)
    ensures ByteOfWord(Apply(op, w, m), 0) == ApplyByte(op, ByteOfWord(w, 0), ByteOfWord(m, 0))
  {
    match op
    case Toggle =>
    case Set =>
    case Clear =>
  }

  lemma LaneOfOp1(op: WordOp, w: Word, m: Word)
    ensures ByteOfWord(Apply(op, w, m), 1) == ApplyByte(op, ByteOfWord(w, 1), ByteOfWord(m, 1))
  {
    match op
    case Toggle =>
    case Set =>
    case Clear =>
  }

  lemma LaneOfOp2(op: WordOp, w: Word, m: Word)
    ensures ByteOfWord(Apply(op, w, m), 2) == ApplyByte(op, ByteOfWord(w, 2), ByteOfWord(m, 2))
  {
    match op
    case Toggle =>
    case Set =>
    case Clear =>
  }

  lemma LaneOfOp3(op: WordOp, w: Word, m: Word)
    ensures ByteOfWord(Apply(op, w, m), 3) == ApplyByte(op, ByteOfWord(w, 3), ByteOfWord(m, 3))
  {
    match op
    case Toggle =>
    case Set =>
    case Clear =>
  }

  /** The lanes of `Bit(k)`: its own lane holds the in-lane mask, the others
      are zero. */
  lemma LaneOfBit(k: WordBit, q: nat)
    requires q < 4
    ensures ByteOfWord(Bit(k), q) == if q == LaneOf(k) then ByteMask(BitInLane(k)) else 0
  {
    if q == 0 {
    } else if q == 1 {
    } else if q == 2 {
    } else {
    }
  }

  /** An operation with an empty mask keeps the byte. */
  lemma ZeroMaskKeeps(op: WordOp, b: Byte)
    ensures ApplyByte(op, b, 0) == b
  {
  }

  /** The byte image of the storage: word `i` occupies bytes `4*i .. 4*i+3`,
      low lane first. */
  function ToBytes(s: Storage): seq<Byte>
  {
    seq(4 * |s|, j requires 0 <= j < 4 * |s| => ByteOfWord(s[j / 4], j % 4))
  }

  /** The words a byte image holds: word `i` is the little-endian load of
      bytes `4*i .. 4*i+3`. */
  function FromBytes(bs: seq<Byte>): Storage
    requires |bs| % 4 == 0
  {
    seq(|bs| / 4, i requires 0 <= i < |bs| / 4 => Pack(bs[4 * i], bs[4 * i + 1], bs[4 * i + 2], bs[4 * i + 3]))
  }

  /** Byte `4*i + q` of the image is lane `q` of word `i`. */
  lemma ImageLane(s: Storage, i: nat, q: nat)
    requires i < |s| && q < 4
    ensures 4 * i + q < |ToBytes(s)|
    ensures ToBytes(s)[4 * i + q] == ByteOfWord(s[i], q)
  {
    assert (4 * i + q) / 4 == i;
    assert (4 * i + q) % 4 == q;
  }

  /** Reading the words back from the byte image gives the storage. */
  lemma FromToBytes(s: Storage)
    ensures FromBytes(ToBytes(s)) == s
  {
    var bs := ToBytes(s);
    var t := FromBytes(bs);
    forall i | 0 <= i < |s|
      ensures t[i] == s[i]
    {
      ImageLane(s, i, 0);
      ImageLane(s, i, 1);
      ImageLane(s, i, 2);
      ImageLane(s, i, 3);
      PackLanes(s[i]);
    }
  }

  /** Imaging the words of a byte sequence gives the byte sequence back. */
  lemma ToFromBytes(bs: seq<Byte>)
    requires |bs| % 4 == 0
    ensures ToBytes(FromBytes(bs)) == bs
  {
    var s := FromBytes(bs);
    var cs := ToBytes(s);
    forall j | 0 <= j < |bs|
      ensures cs[j] == bs[j]
    {
      var i := j / 4;
      assert s[i] == Pack(bs[4 * i], bs[4 * i + 1], bs[4 * i + 2], bs[4 * i + 3]);
      var q := j % 4;
      if q == 0 {
      } else if q == 1 {
      } else if q == 2 {
      } else {
      }
    }
  }

  /** The 32-bit little-endian load `*(*uint32)(base + b)`. */
  function LoadLE(bs: seq<Byte>, b: nat): Word
    requires b + 4 <= |bs|
  {
    Pack(bs[b], bs[b + 1], bs[b + 2], bs[b + 3])
  }

  /** The 32-bit little-endian store `*(*uint32)(base + b) = v`: bytes
      `b .. b+3` receive the lanes of `v`, every other byte is kept. */
  function StoreLE(bs: seq<Byte>, b: nat, v: Word): (r: seq<Byte>)
    requires b + 4 <= |bs|
  {
    seq(|bs|, j requires 0 <= j < |bs| => if b <= j < b + 4 then ByteOfWord(v, j - b) else bs[j])
  }

  /** A load after a store at the same offset returns the stored word. */
  lemma LoadAfterStore(bs: seq<Byte>, b: nat, v: Word)
    requires b + 4 <= |bs|
    ensures LoadLE(StoreLE(bs, b, v), b) == v
  {
    PackLanes(v);
  }

  /** A second store at the same offset overwrites the first entirely. */
  lemma StoreAfterStore(bs: seq<Byte>, b: nat, v1: Word, v2: Word)
    requires b + 4 <= |bs|
    ensures StoreLE(StoreLE(bs, b, v1), b, v2) == StoreLE(bs, b, v2)
  {
  }

  /** Storing back the word just loaded changes nothing. */
  lemma StoreOfLoad(bs: seq<Byte>, b: nat)
    requires b + 4 <= |bs|
    ensures StoreLE(bs, b, LoadLE(bs, b)) == bs
  {
    var r := StoreLE(bs, b, LoadLE(bs, b));
    forall j | 0 <= j < |bs|
      ensures r[j] == bs[j]
    {
      if b <= j < b + 4 {
        var q := j - b;
        if q == 0 {
        } else if q == 1 {
        } else if q == 2 {
        } else {
        }
      }
    }
  }

  /** At a word boundary the load returns that storage word. */
  lemma AlignedLoad(s: Storage, i: nat)
    requires i < |s|
    ensures LoadLE(ToBytes(s), 4 * i) == s[i]
  {
    ImageLane(s, i, 0);
    ImageLane(s, i, 1);
    ImageLane(s, i, 2);
    ImageLane(s, i, 3);
    PackLanes(s[i]);
  }

  /** At a word boundary the store replaces exactly that storage word. */
  lemma AlignedStore(s: Storage, i: nat, v: Word)
    requires i < |s|
    ensures StoreLE(ToBytes(s), 4 * i, v) == ToBytes(s[i := v])
  {
    var r := StoreLE(ToBytes(s), 4 * i, v);
    var t := ToBytes(s[i := v]);
    forall j | 0 <= j < |r|
      ensures r[j] == t[j]
    {
      if j / 4 == i {
        assert 4 * i <= j < 4 * i + 4;
        assert j - 4 * i == j % 4;
      }
    }
  }

  /** Bit `p` of a byte sequence: bit `p % 8` of byte `p / 8`. */
  predicate TestByteBit(bs: seq<Byte>, p: nat)
    requires p < 8 * |bs|
  {
    bs[p / 8] & ByteMask((p % 8) as ByteBit) != 0
  }

  /** Which lane and bit of the image linear bit `p` is, split into the
      arithmetic facts the proofs below use. */
  lemma SplitPosition(p: nat)
    ensures (p / 8) / 4 == p / 32
    ensures (p / 8) % 4 == LaneOf(WordBitOf(p))
    ensures (p % 8) as ByteBit == BitInLane(WordBitOf(p))
  {
    JoinWordBit(p);
  }

  /** Bit `8*b + k` of the image is bit `BitInLane(k)` of byte `b + LaneOf(k)`,
      and no other position has that byte and bit. */
  lemma CursorPosition(b: nat, k: WordBit, p: nat)
    ensures (p == 8 * b + k as nat) <==> (p / 8 == b + LaneOf(k) && (p % 8) as ByteBit == BitInLane(k))
  {
    SplitWordBit(k);
    var r := BitInLane(k);
    assert (p % 8) as ByteBit == r <==> p % 8 == r as nat;
  }

  /** Little-endian numbering makes the bits of the byte image the bits of
      the words: bit `p` of the image is bit `p % 32` of word `p / 32`. */
  lemma ByteViewBit(s: Storage, p: nat)
    requires p < 32 * |s|
    ensures TestByteBit(ToBytes(s), p) == TestBit(s, p)
  {
    SplitPosition(p);
    var k := WordBitOf(p);
    var w := s[p / 32];
    assert ToBytes(s)[p / 8] == ByteOfWord(w, LaneOf(k));
    LaneBit(w, k);
  }

  /** Byte `b + q` of the image is lane `q` of the word loaded at `b`. */
  lemma LoadLane(bs: seq<Byte>, b: nat, q: nat)
    requires b + 4 <= |bs| && q < 4
    ensures ByteOfWord(LoadLE(bs, b), q) == bs[b + q]
  {
    if q == 0 {
    } else if q == 1 {
    } else if q == 2 {
    } else {
    }
  }

  /** Bit `8*b + k` of the image, located by byte and bit in byte. */
  lemma ImageBitAt(bs: seq<Byte>, b: nat, k: WordBit)
    requires b + 4 <= |bs|
    ensures 8 * b + k as nat < 8 * |bs|
    ensures TestByteBit(bs, 8 * b + k as nat) == (bs[b + LaneOf(k)] & ByteMask(BitInLane(k)) != 0)
  {
    CursorPosition(b, k, 8 * b + k as nat);
  }

  /** Bit `k` of the word loaded at byte `b`, located by byte and bit in byte. */
  lemma LoadBitAt(bs: seq<Byte>, b: nat, k: WordBit)
    requires b + 4 <= |bs|
    ensures (LoadLE(bs, b) & Bit(k) != 0) == (bs[b + LaneOf(k)] & ByteMask(BitInLane(k)) != 0)
  {
    LoadLane(bs, b, LaneOf(k));
    LaneBit(LoadLE(bs, b), k);
  }

  /** A load at byte `b` masked with `Bit(k)` reads bit `8*b + k` of the image. */
  lemma LoadSelects(bs: seq<Byte>, b: nat, k: WordBit)
    requires b + 4 <= |bs|
    ensures 8 * b + k as nat < 8 * |bs|
    ensures (LoadLE(bs, b) & Bit(k) != 0) == TestByteBit(bs, 8 * b + k as nat)
  {
    ImageBitAt(bs, b, k);
    LoadBitAt(bs, b, k);
  }

  /** Lane `q` of a read-modify-write with mask `Bit(k)` at byte `b`: the lane
      holding the bit gets the operation, the others keep their byte. */
  lemma StoreApplyLane(bs: seq<Byte>, b: nat, op: WordOp, k: WordBit, q: nat)
    requires b + 4 <= |bs| && q < 4
    ensures StoreLE(bs, b, Apply(op, LoadLE(bs, b), Bit(k)))[b + q]
         == if q == LaneOf(k) then ApplyByte(op, bs[b + q], ByteMask(BitInLane(k))) else bs[b + q]
  {
    LaneOfApply(op, LoadLE(bs, b), k, q);
    LoadLane(bs, b, q);
  }

  /** A read-modify-write with mask `Bit(k)` at byte `b` rewrites only the byte
      holding bit `8*b + k`, applying the operation to that byte. */
  lemma StoreApply(bs: seq<Byte>, b: nat, op: WordOp, k: WordBit)
    requires b + 4 <= |bs|
    ensures StoreLE(bs, b, Apply(op, LoadLE(bs, b), Bit(k)))
         == bs[b + LaneOf(k) := ApplyByte(op, bs[b + LaneOf(k)], ByteMask(BitInLane(k)))]
  {
    var r := StoreLE(bs, b, Apply(op, LoadLE(bs, b), Bit(k)));
    var t := bs[b + LaneOf(k) := ApplyByte(op, bs[b + LaneOf(k)], ByteMask(BitInLane(k)))];
    forall j | 0 <= j < |bs|
      ensures r[j] == t[j]
    {
      if b <= j < b + 4 {
        StoreApplyLane(bs, b, op, k, j - b);
      }
    }
  }

  /** Rewriting one byte with a single-bit mask changes only that bit of the
      image. */
  lemma ByteUpdateBit(bs: seq<Byte>, j: nat, op: WordOp, r: ByteBit, p: nat)
    requires j < |bs| && p < 8 * |bs|
    ensures TestByteBit(bs[j := ApplyByte(op, bs[j], ByteMask(r))], p)
         == if p / 8 == j && (p % 8) as ByteBit == r then ApplyBit(op, TestByteBit(bs, p))
            else TestByteBit(bs, p)
  {
    if p / 8 == j {
      ApplyByteSelectedBit(op, bs[j], r, (p % 8) as ByteBit);
    }
  }
}
