/** `invert(len)`: complement the leading words of a bitmap that hold its
    first `len` bits. The same word-by-word complement loop also finishes
    `newMarkBits` when it is asked for all-ones storage. */
module Inversion {
  import opened Words

  /** The number of words `invert(len)` flips: `len/32 + 1`, less one when
      `len` is a multiple of 32. */
  function InvertCount(len: Uintptr): (num: nat) {
    var num := len / 32 + 1;
    if len % 32 == 0 then num - 1 else num
  }

  /** The count is the ceiling of `len / 32`: the fewest words that hold
      `len` bits. */
  lemma InvertCountIsCeiling(len: Uintptr)
    ensures 32 * InvertCount(len) >= len
    ensures InvertCount(len) > 0 ==> 32 * (InvertCount(len) - 1) < len
    ensures InvertCount(len) == (len + 31) / 32
  {
  }

  /** Reference meaning of flipping the first `num` words: those words are
      complemented and every later word is kept. */
  function Complemented(s: Storage, num: nat): Storage
    requires num <= |s|
  {
    seq(|s|, i requires 0 <= i < |s| => if i < num then !s[i] else s[i])
  }

  /** The loop `for i < num { *uint32p(i) = ^*uint32p(i) }`. */
  method ComplementLeading(s: Storage, num: nat) returns (r: Storage)
    requires num <= |s|
    ensures |r| == |s|
    ensures forall i :: 0 <= i < num ==> r[i] == !s[i]
    ensures forall i :: num <= i < |s| ==> r[i] == s[i]
  {
    r := s;
    var i := 0;
    while i < num
      invariant i <= num && |r| == |s|
      invariant forall j :: 0 <= j < i ==> r[j] == !s[j]
      invariant forall j :: i <= j < |s| ==> r[j] == s[j]
    {
      r := r[i := !r[i]];
      i := i + 1;
    }
  }

  /** A storage that agrees word by word with the reference is the
      reference. */
  lemma IsComplemented(s: Storage, num: nat, r: Storage)
    requires num <= |s| && |r| == |s|
    requires forall i :: 0 <= i < num ==> r[i] == !s[i]
    requires forall i :: num <= i < |s| ==> r[i] == s[i]
    ensures r == Complemented(s, num)
  {
  }

  /** `b.invert(len)`. The storage must hold the `InvertCount(len)` words the
      loop writes. Word `i` is flipped exactly when it holds one of the
      first `len` bits. */
  method Invert(s: Storage, len: Uintptr) returns (r: Storage)
    requires InvertCount(len) <= |s|
    ensures |r| == |s|
    ensures forall i :: 0 <= i < |s| ==> r[i] == if 32 * i < len then !s[i] else s[i]
    ensures r == Complemented(s, InvertCount(len))
    ensures forall p :: 0 <= p < len ==> p < 32 * |s| && TestBit(r, p) == !TestBit(s, p)
  {
    InvertCountIsCeiling(len);
    r := ComplementLeading(s, InvertCount(len));
    IsComplemented(s, InvertCount(len), r);
    forall p | 0 <= p < len
      ensures p < 32 * |s| && TestBit(r, p) == !TestBit(s, p)
    {
      ComplementedBits(s, InvertCount(len), p);
    }
  }

  /** At bit level: every bit of the flipped words changes, every other bit
      stays. */
  lemma ComplementedBits(s: Storage, num: nat, p: nat)
    requires num <= |s| && p < 32 * |s|
    ensures TestBit(Complemented(s, num), p) == if p < 32 * num then !TestBit(s, p) else TestBit(s, p)
  {
    var w := s[p / 32];
    var m := Bit(WordBitOf(p));
    assert (!w & m != 0) == !(w & m != 0) by {
      BitIsSingle(WordBitOf(p));
    }
  }

  /** Flipping the same words twice restores the storage. */
  lemma ComplementedTwice(s: Storage, num: nat)
    requires num <= |s|
    ensures Complemented(Complemented(s, num), num) == s
  {
  }

  /** `b.invert(len)` called twice restores the storage: `invert` is an
      involution. */
  method InvertTwice(s: Storage, len: Uintptr) returns (r: Storage)
    requires InvertCount(len) <= |s|
    ensures r == s
  {
    var t := Invert(s, len);
    r := Invert(t, len);
    ComplementedTwice(s, InvertCount(len));
  }
}
